/**
 * `LocalDate`: a date object whose stored fields may be out of range.
 * Every getter and setter first repairs the stored triple in place
 * (`normalize`), so a date is repaired lazily, the first time it is read or
 * written after an operation that left it out of range.  `plus` and
 * `minus` read the stored fields without repairing them; `with`, the
 * `until` methods, the comparisons and the operators go through the getters
 * and so repair their operands.  The meaning of each operation is the
 * function of `Dates` named in its postcondition; `DateLaws` proves what
 * those functions do.
 */
module LocalDates {
  import opened Arith
  import opened Calendar
  import opened Dates
  import DateLaws

  /** The field-wise sum (`sign == 1`) or difference (`sign == -1`) of two repaired dates: `lhs + rhs`, `lhs - rhs`. */
  function Combined(l: Date, r: Date, sign: int): Date
  {
    var a, b := Normalized(l), Normalized(r);
    Date(a.year + sign * b.year, a.month + sign * b.month, a.day + sign * b.day)
  }

  /** One compound assignment `date.field += amount` on a year, month or day: the getter and the setter both repair. */
  function AddToField(t: Date, field: Component, amount: int): Date
  {
    var n := Normalized(t);
    if field == Component.Year then n.(year := n.year + amount)
    else if field == Component.Month then n.(month := n.month + amount)
    else n.(day := n.day + amount)
  }

  /** `date.field += sign * date.field`: the right-hand side reads the field the getter has just repaired. */
  function ScaleField(t: Date, field: Component, sign: int): Date
  {
    var n := Normalized(t);
    if field == Component.Year then n.(year := n.year + sign * n.year)
    else if field == Component.Month then n.(month := n.month + sign * n.month)
    else n.(day := n.day + sign * n.day)
  }

  /**
   * `lhs += rhs` (`sign == 1`) and `lhs -= rhs` (`sign == -1`) on two
   * distinct objects: three compound assignments in turn, each of which
   * repairs what the previous one left, so a field set out of range moves
   * the next field.
   */
  function Assigned(l: Date, r: Date, sign: int): Date
  {
    var b := Normalized(r);
    AddToField(AddToField(AddToField(l, Component.Year, sign * b.year), Component.Month, sign * b.month),
               Component.Day, sign * b.day)
  }

  /** `date += date` and `date -= date`. */
  function SelfAssigned(l: Date, sign: int): Date
  {
    ScaleField(ScaleField(ScaleField(l, Component.Year, sign), Component.Month, sign), Component.Day, sign)
  }

  /** `Dates.Until` starts from the month and day differences `LocalDate.Until` computes. */
  lemma UntilStarts(s: Date, e: Date, totalMonth: int, days: int)
    requires totalMonth == ProlepticMonth(e) - ProlepticMonth(s) && days == e.day - s.day
    ensures Dates.Until(s, e) == UntilFrom(s, e, totalMonth, days)
  {
  }

  // ---------------------------------------------------------------------
  // `+=` against `+`

  /**
   * When no intermediate assignment leaves a field out of range, the three
   * compound assignments of `+=` / `-=` store what `+` / `-` computes.
   */
  lemma AssignedIsCombinedInRange(l: Date, r: Date, sign: int, a: Date, b: Date)
    requires a == Normalized(l) && b == Normalized(r)
    requires IsValid(a.(year := a.year + sign * b.year))
    requires IsValid(Date(a.year + sign * b.year, a.month + sign * b.month, a.day))
    ensures Assigned(l, r, sign) == Combined(l, r, sign)
  {
    var t1 := AddToField(l, Component.Year, sign * b.year);
    assert t1 == a.(year := a.year + sign * b.year);
    var t2 := AddToField(t1, Component.Month, sign * b.month);
    assert t2 == Date(a.year + sign * b.year, a.month + sign * b.month, a.day);
  }

  /**
   * `+=` is not `+`: 2024-02-29 plus (1, 1, 1) is stored as 2025-03-30 by
   * `+`, while `+=` first stores 2025-02-29, whose repair on the next read
   * moves it to 2025-03-01, and ends at 2025-04-02.
   */
  lemma CompoundAddIsNotAdd()
    ensures Combined(Date(2024, 2, 29), Date(1, 1, 1), 1) == Date(2025, 3, 30)
    ensures Assigned(Date(2024, 2, 29), Date(1, 1, 1), 1) == Date(2025, 4, 2)
    ensures Normalized(Date(2025, 3, 30)) != Normalized(Date(2025, 4, 2))
  {
    CombinedOfExample();
    AssignedOfExample();
    ResultsOfExampleDiffer();
  }

  lemma ResultsOfExampleDiffer()
    ensures Normalized(Date(2025, 3, 30)) != Normalized(Date(2025, 4, 2))
  {
    assert IsValid(Date(2025, 3, 30)) && IsValid(Date(2025, 4, 2));
  }

  lemma CombinedOfExample()
    ensures Combined(Date(2024, 2, 29), Date(1, 1, 1), 1) == Date(2025, 3, 30)
  {
    assert IsLeapYear(2024);
    assert IsValid(Date(2024, 2, 29)) && IsValid(Date(1, 1, 1));
  }

  lemma AssignedOfExample()
    ensures Assigned(Date(2024, 2, 29), Date(1, 1, 1), 1) == Date(2025, 4, 2)
  {
    assert IsValid(Date(1, 1, 1));
    YearStepOfExample();
    MonthStepOfExample();
    DayStepOfExample();
  }

  // The three compound assignments of the example, one repair each.

  lemma YearStepOfExample()
    ensures AddToField(Date(2024, 2, 29), Component.Year, 1) == Date(2025, 2, 29)
  {
    assert IsLeapYear(2024);
    assert IsValid(Date(2024, 2, 29));
  }

  lemma MonthStepOfExample()
    ensures AddToField(Date(2025, 2, 29), Component.Month, 1) == Date(2025, 4, 1)
  {
    assert !IsLeapYear(2025);
    DateLaws.LeapDayInCommonYear(2025);
  }

  lemma DayStepOfExample()
    ensures AddToField(Date(2025, 4, 1), Component.Day, 1) == Date(2025, 4, 2)
  {
    assert IsValid(Date(2025, 4, 1));
  }

  // The branches of `Dates.UntilFrom`, one lemma per case, so that `LocalDate.Until` need not unfold it.

  lemma UntilFromBorrowing(s: Date, e: Date, totalMonth: int, days: int, borrowed: int)
    requires totalMonth > 0 && days < 0 && borrowed == totalMonth - 1
    ensures UntilFrom(s, e, totalMonth, days)
            == YearsMonthsDays(TDiv(borrowed, 12), TMod(borrowed, 12), BorrowedDays(s, e, borrowed))
  {
    UntilFromBorrowingUnfolds(s, e, totalMonth, days);
    BorrowedResultAgrees(s, e, totalMonth, borrowed);
  }

  lemma UntilFromBorrowingUnfolds(s: Date, e: Date, totalMonth: int, days: int)
    requires totalMonth > 0 && days < 0
    ensures UntilFrom(s, e, totalMonth, days)
            == YearsMonthsDays(TDiv(totalMonth - 1, 12), TMod(totalMonth - 1, 12), BorrowedDays(s, e, totalMonth - 1))
  {
  }

  lemma BorrowedResultAgrees(s: Date, e: Date, totalMonth: int, borrowed: int)
    requires borrowed == totalMonth - 1
    ensures YearsMonthsDays(TDiv(borrowed, 12), TMod(borrowed, 12), BorrowedDays(s, e, borrowed))
            == YearsMonthsDays(TDiv(totalMonth - 1, 12), TMod(totalMonth - 1, 12), BorrowedDays(s, e, totalMonth - 1))
  {
  }

  lemma UntilFromLending(s: Date, e: Date, totalMonth: int, days: int, lent: int, lentDays: int)
    requires totalMonth < 0 && days > 0 && lent == totalMonth + 1 && lentDays == days - LengthOfMonth(e.year, e.month)
    ensures UntilFrom(s, e, totalMonth, days) == YearsMonthsDays(TDiv(lent, 12), TMod(lent, 12), lentDays)
  {
  }

  lemma UntilFromPlain(s: Date, e: Date, totalMonth: int, days: int)
    requires !(totalMonth > 0 && days < 0) && !(totalMonth < 0 && days > 0)
    ensures UntilFrom(s, e, totalMonth, days) == YearsMonthsDays(TDiv(totalMonth, 12), TMod(totalMonth, 12), days)
  {
  }

  /** The copy `until` moves by `months`: the valid start with only its month changed. */
  lemma MovedCopyIs(s: Date, c1: Date, c2: Date, months: int, value: int)
    requires IsValid(s) && c1 == Normalized(Normalized(s))
    requires value == c1.month + months && c2 == Normalized(c1).(month := value)
    ensures c2 == Date(s.year, s.month + months, s.day)
  {
  }

  /** The two epoch days `until` subtracts in its borrowing branch. */
  lemma BorrowedDaysIs(s: Date, e: Date, c2: Date, months: int, e1: int, e2: int)
    requires c2 == Date(s.year, s.month + months, s.day)
    requires e1 == ToEpochDay(Normalized(c2)) && e2 == ToEpochDay(e)
    ensures e2 - e1 == BorrowedDays(s, e, months)
  {
  }

  /** A compound assignment on a date is its repairing getter, then its setter with the value read plus the amount. */
  lemma SetterStepIs(t0: Date, n: Date, t1: Date, field: Component, amount: int, value: int)
    requires n == Normalized(t0)
    requires field == Component.Year ==> value == n.year + amount && t1 == Normalized(n).(year := value)
    requires field == Component.Month ==> value == n.month + amount && t1 == Normalized(n).(month := value)
    requires field != Component.Year && field != Component.Month ==> value == n.day + amount && t1 == Normalized(n).(day := value)
    ensures t1 == AddToField(t0, field, amount)
  {
  }

  /** `date.field += sign * date.field` is the repairing getter, read twice, then the setter. */
  lemma ScaleStepIs(t0: Date, n: Date, t1: Date, field: Component, sign: int, value: int)
    requires n == Normalized(t0)
    requires field == Component.Year ==> value == n.year + sign * n.year && t1 == Normalized(n).(year := value)
    requires field == Component.Month ==> value == n.month + sign * n.month && t1 == Normalized(n).(month := value)
    requires field != Component.Year && field != Component.Month ==> value == n.day + sign * n.day && t1 == Normalized(n).(day := value)
    ensures t1 == ScaleField(t0, field, sign)
  {
  }

  class LocalDate {
    var internalYear: int
    var internalMonth: int
    var internalDay: int

    /** The stored, possibly out-of-range, fields. */
    function Triple(): Date
      reads this
    {
      Date(internalYear, internalMonth, internalDay)
    }

    // -------------------------------------------------------------------
    // Lifecycle

    /** `init(year:month:day:)` stores the fields as given. */
    constructor (year: int, month: int, day: int)
      ensures Triple() == Date(year, month, day)
    {
      internalYear, internalMonth, internalDay := year, month, day;
    }

    /** `init(month:day:)` stores year 0. */
    constructor MonthDay(month: int, day: int)
      ensures Triple() == Date(0, month, day)
    {
      internalYear, internalMonth, internalDay := 0, month, day;
    }

    /** `init(year:dayOfYear:)` stores January and the day of the year as the day of the month. */
    constructor YearDay(year: int, dayOfYear: int)
      ensures Triple() == Date(year, 1, dayOfYear)
    {
      internalYear, internalMonth, internalDay := year, 1, dayOfYear;
    }

    /** `init(epochDay:)`: the date with that epoch day, valid for every integer. */
    constructor OfEpochDay(epochDay: int)
      ensures Triple() == FromEpochDay(epochDay)
      ensures IsValid(Triple()) && ToEpochDay(Triple()) == epochDay
    {
      EpochDays.FromEpochDayCorrect(epochDay);
      var d := FromEpochDay(epochDay);
      internalYear, internalMonth, internalDay := d.year, d.month, d.day;
    }

    /** `init(_ date: LocalDate)` copies through the getters, so it repairs `date` and stores its repaired fields. */
    constructor Copy(date: LocalDate)
      modifies date
      ensures date.Triple() == Normalized(old(date.Triple()))
      ensures Triple() == date.Triple()
    {
      var y := date.Year();
      var m := date.Month();
      var d := date.Day();
      internalYear, internalMonth, internalDay := y, m, d;
    }

    /** `LocalDate.min`: -999999999-01-01. */
    static method Min() returns (date: LocalDate)
      ensures fresh(date) && date.Triple() == Date(MinYear, MinMonth, 1)
    {
      date := new LocalDate(MinYear, MinMonth, 1);
    }

    /** `LocalDate.max`: the first of December of the maximum year, with the day set to the month's length. */
    static method Max() returns (date: LocalDate)
      ensures fresh(date) && date.Triple() == Date(MaxYear, MaxMonth, 31)
    {
      date := new LocalDate(MaxYear, MaxMonth, 1);
      var n := date.LengthOfMonth();
      date.SetDay(n);
    }

    // -------------------------------------------------------------------
    // Repair

    /**
     * `normalize`: a valid triple stays; otherwise the month count is
     * folded into the year (floor division) and a month (truncated
     * remainder plus one), and the fields are replaced by those of
     * `LocalDate(epochDay: toEpochDay())`.
     */
    method Normalize()
      modifies this
      ensures Triple() == Normalized(old(Triple()))
      ensures IsValid(Triple())
    {
      if IsValid(Triple()) {
        return;
      }
      var monthCount := internalYear * 12 + (internalMonth - 1);
      internalYear := monthCount / 12;
      internalMonth := TMod(monthCount, 12) + 1;
      assert Triple() == Folded(old(Triple()));
      var newDate := new LocalDate.OfEpochDay(ToEpochDay(Triple()));
      internalYear := newDate.internalYear;
      internalMonth := newDate.internalMonth;
      internalDay := newDate.internalDay;
    }

    // -------------------------------------------------------------------
    // Getters and setters: each repairs first

    method Year() returns (year: int)
      modifies this
      ensures Triple() == Normalized(old(Triple())) && year == Triple().year
    {
      Normalize();
      year := internalYear;
    }

    method Month() returns (month: int)
      modifies this
      ensures Triple() == Normalized(old(Triple())) && month == Triple().month
      ensures MinMonth <= month <= MaxMonth
    {
      Normalize();
      month := internalMonth;
    }

    method Day() returns (day: int)
      modifies this
      ensures Triple() == Normalized(old(Triple())) && day == Triple().day
      ensures 1 <= day <= Calendar.LengthOfMonth(Triple().year, Triple().month)
    {
      Normalize();
      day := internalDay;
    }

    method SetYear(year: int)
      modifies this
      ensures Triple() == Normalized(old(Triple())).(year := year)
    {
      Normalize();
      internalYear := year;
    }

    method SetMonth(month: int)
      modifies this
      ensures Triple() == Normalized(old(Triple())).(month := month)
    {
      Normalize();
      internalMonth := month;
    }

    method SetDay(day: int)
      modifies this
      ensures Triple() == Normalized(old(Triple())).(day := day)
    {
      Normalize();
      internalDay := day;
    }

    /** `dayOfWeek` (see `DateLaws.DayOfWeekFromEpochDay` for what it counts). */
    method DayOfWeek() returns (weekday: int)
      modifies this
      ensures Triple() == Normalized(old(Triple()))
      ensures weekday == Dates.DayOfWeek(Triple())
    {
      Normalize();
      weekday := Dates.DayOfWeek(Triple());
    }

    /** `epochDay`: the epoch day of the repaired fields. */
    method EpochDay() returns (epochDay: int)
      modifies this
      ensures Triple() == Normalized(old(Triple()))
      ensures epochDay == ToEpochDay(Triple())
    {
      Normalize();
      epochDay := ToEpochDay(Triple());
    }

    method LengthOfMonth() returns (n: int)
      modifies this
      ensures Triple() == Normalized(old(Triple()))
      ensures n == Calendar.LengthOfMonth(Triple().year, Triple().month)
    {
      Normalize();
      n := Calendar.LengthOfMonth(internalYear, internalMonth);
    }

    method LengthOfYear() returns (n: int)
      modifies this
      ensures Triple() == Normalized(old(Triple()))
      ensures n == Calendar.LengthOfYear(Triple().year)
    {
      Normalize();
      n := if Calendar.IsLeapYear(internalYear) then 366 else 365;
    }

    method IsLeapYear() returns (leap: bool)
      modifies this
      ensures Triple() == Normalized(old(Triple()))
      ensures leap == Calendar.IsLeapYear(Triple().year)
    {
      Normalize();
      leap := Calendar.IsLeapYear(internalYear);
    }

    // -------------------------------------------------------------------
    // with / plus / minus: new dates

    /** `with(component:newValue:)` for year, month and day; any other unit stops the program. */
    method With(component: Component, newValue: int) returns (date: LocalDate)
      requires component == Component.Year || component == Component.Month || component == Component.Day
      modifies this
      ensures Triple() == Normalized(old(Triple()))
      ensures fresh(date)
      ensures date.Triple() == if component == Component.Year then Triple().(year := newValue)
                               else if component == Component.Month then Triple().(month := newValue)
                               else Triple().(day := newValue)
    {
      if component == Component.Year {
        date := WithYear(newValue);
      } else if component == Component.Month {
        date := WithMonth(newValue);
      } else {
        date := WithDayOfMonth(newValue);
      }
    }

    method WithYear(year: int) returns (date: LocalDate)
      modifies this
      ensures Triple() == Normalized(old(Triple()))
      ensures fresh(date) && date.Triple() == Triple().(year := year)
    {
      var m := Month();
      var d := Day();
      date := new LocalDate(year, m, d);
    }

    method WithMonth(month: int) returns (date: LocalDate)
      modifies this
      ensures Triple() == Normalized(old(Triple()))
      ensures fresh(date) && date.Triple() == Triple().(month := month)
    {
      var y := Year();
      var d := Day();
      date := new LocalDate(y, month, d);
    }

    method WithDayOfMonth(dayOfMonth: int) returns (date: LocalDate)
      modifies this
      ensures Triple() == Normalized(old(Triple()))
      ensures fresh(date) && date.Triple() == Triple().(day := dayOfMonth)
    {
      var y := Year();
      var m := Month();
      date := new LocalDate(y, m, dayOfMonth);
    }

    /** `with(dayOfYear:)`: January of the repaired year with the day of the year as its day. */
    method WithDayOfYear(dayOfYear: int) returns (date: LocalDate)
      modifies this
      ensures Triple() == Normalized(old(Triple()))
      ensures fresh(date) && date.Triple() == Date(Triple().year, 1, dayOfYear)
    {
      var y := Year();
      date := new LocalDate(y, 1, dayOfYear);
    }

    /** `plus(component:newValue:)` for year, month, week and day; any other unit stops the program. */
    method Plus(component: Component, newValue: int) returns (date: LocalDate)
      requires component == Component.Year || component == Component.Month || component == Component.Weekday || component == Component.Day
      ensures fresh(date)
      ensures date.Triple() == if component == Component.Year then Triple().(year := internalYear + newValue)
                               else if component == Component.Month then Triple().(month := internalMonth + newValue)
                               else if component == Component.Weekday then Triple().(day := internalDay + newValue * 7)
                               else Triple().(day := internalDay + newValue)
    {
      if component == Component.Year {
        date := PlusYear(newValue);
      } else if component == Component.Month {
        date := PlusMonth(newValue);
      } else if component == Component.Weekday {
        date := PlusWeek(newValue);
      } else {
        date := PlusDay(newValue);
      }
    }

    /** `plus(year:)` adds to the stored year only, without repairing. */
    method PlusYear(year: int) returns (date: LocalDate)
      ensures fresh(date) && date.Triple() == Triple().(year := internalYear + year)
    {
      date := new LocalDate(internalYear + year, internalMonth, internalDay);
    }

    method PlusMonth(month: int) returns (date: LocalDate)
      ensures fresh(date) && date.Triple() == Triple().(month := internalMonth + month)
    {
      date := new LocalDate(internalYear, internalMonth + month, internalDay);
    }

    /** `plus(week:)` adds seven days per week to the stored day. */
    method PlusWeek(week: int) returns (date: LocalDate)
      ensures fresh(date) && date.Triple() == Triple().(day := internalDay + week * 7)
    {
      date := new LocalDate(internalYear, internalMonth, internalDay + week * 7);
    }

    method PlusDay(day: int) returns (date: LocalDate)
      ensures fresh(date) && date.Triple() == Triple().(day := internalDay + day)
    {
      date := new LocalDate(internalYear, internalMonth, internalDay + day);
    }

    /** `minus(component:newValue:)` is `plus` of the negated amount. */
    method Minus(component: Component, newValue: int) returns (date: LocalDate)
      requires component == Component.Year || component == Component.Month || component == Component.Weekday || component == Component.Day
      ensures fresh(date)
      ensures date.Triple() == if component == Component.Year then Triple().(year := internalYear - newValue)
                               else if component == Component.Month then Triple().(month := internalMonth - newValue)
                               else if component == Component.Weekday then Triple().(day := internalDay - newValue * 7)
                               else Triple().(day := internalDay - newValue)
    {
      date := Plus(component, -newValue);
    }

    method MinusYear(year: int) returns (date: LocalDate)
      ensures fresh(date) && date.Triple() == Triple().(year := internalYear - year)
    {
      date := PlusYear(-year);
    }

    method MinusMonth(month: int) returns (date: LocalDate)
      ensures fresh(date) && date.Triple() == Triple().(month := internalMonth - month)
    {
      date := PlusMonth(-month);
    }

    method MinusWeek(week: int) returns (date: LocalDate)
      ensures fresh(date) && date.Triple() == Triple().(day := internalDay - week * 7)
    {
      date := PlusWeek(-week);
    }

    method MinusDay(day: int) returns (date: LocalDate)
      ensures fresh(date) && date.Triple() == Triple().(day := internalDay - day)
    {
      date := PlusDay(-day);
    }

    /** `range` for the units other than the week of the year: the bounds of the field in the repaired date. */
    method Range(component: Component) returns (low: int, high: int)
      requires component == Component.Month || component == Component.Year || component == Component.WeekOfMonth || component == Component.Era
      modifies this
      ensures Triple() == Normalized(old(Triple()))
      ensures low == 1
      ensures component == Component.Month ==> high == Calendar.LengthOfMonth(Triple().year, Triple().month)
      ensures component == Component.Year ==> high == Calendar.LengthOfYear(Triple().year)
      ensures component == Component.WeekOfMonth ==>
                high == if Triple().month == 2 && !Calendar.IsLeapYear(Triple().year) then 4 else 5
      ensures component == Component.Era ==> high == if Triple().year <= 0 then MaxYear + 1 else MaxYear
    {
      if component == Component.Month {
        var n := LengthOfMonth();
        low, high := 1, n;
      } else if component == Component.Year {
        var n := LengthOfYear();
        low, high := 1, n;
      } else if component == Component.WeekOfMonth {
        var m := Month();
        var leap := IsLeapYear();
        low, high := 1, if m == 2 && !leap then 4 else 5;
      } else {
        var y := Year();
        low, high := 1, if y <= 0 then MaxYear + 1 else MaxYear;
      }
    }

    // -------------------------------------------------------------------
    // Distances

    /** `dayUntil`: the end's epoch day minus this one's (the end is repaired first). */
    method DayUntil(endDate: LocalDate) returns (days: int)
      modifies this, endDate
      ensures Triple() == Normalized(old(Triple())) && endDate.Triple() == Normalized(old(endDate.Triple()))
      ensures days == Dates.DayUntil(Triple(), endDate.Triple())
    {
      var e := endDate.EpochDay();
      var s := EpochDay();
      days := e - s;
    }

    /** `monthUntil`: packed months and days, differenced and divided by 32 with truncation. */
    method MonthUntil(endDate: LocalDate) returns (months: int)
      modifies this, endDate
      ensures Triple() == Normalized(old(Triple())) && endDate.Triple() == Normalized(old(endDate.Triple()))
      ensures months == Dates.MonthUntil(Triple(), endDate.Triple())
    {
      endDate.Normalize();
      Normalize();
      var d1 := Day();
      var d2 := endDate.Day();
      var packed1 := ProlepticMonth(Triple()) * 32 + d1;
      var packed2 := ProlepticMonth(endDate.Triple()) * 32 + d2;
      months := TDiv(packed2 - packed1, 32);
    }

    /** `until(endDate:component:)` for day, week, month and year; any other unit stops the program. */
    method UntilUnit(endDate: LocalDate, component: Component) returns (amount: int)
      requires IsDateUnit(component)
      modifies this, endDate
      ensures Triple() == Normalized(old(Triple())) && endDate.Triple() == Normalized(old(endDate.Triple()))
      ensures amount == Dates.UntilUnit(Triple(), endDate.Triple(), component)
    {
      if component == Component.Day {
        amount := DayUntil(endDate);
      } else if component == Component.Weekday {
        var days := DayUntil(endDate);
        amount := TDiv(days, 7);
      } else if component == Component.Month {
        amount := MonthUntil(endDate);
      } else {
        var months := MonthUntil(endDate);
        amount := TDiv(months, 12);
      }
    }

    /**
     * `until(endDate:)`: the years, months and days it hands to `Period`.
     * The borrowing branch copies this date, moves the copy's month and
     * reads its epoch day, which repairs the moved copy.
     */
    method Until(endDate: LocalDate) returns (period: YearsMonthsDays)
      modifies this, endDate
      ensures Triple() == Normalized(old(Triple())) && endDate.Triple() == Normalized(old(endDate.Triple()))
      ensures period == Dates.Until(Triple(), endDate.Triple())
    {
      endDate.Normalize();
      Normalize();
      ghost var s, e := Triple(), endDate.Triple();
      var totalMonth := ProlepticMonth(endDate.Triple()) - ProlepticMonth(Triple());
      var d2 := endDate.Day();
      var d1 := Day();
      var days := d2 - d1;
      ghost var totalMonth0, days0 := totalMonth, days;
      assert Triple() == s && endDate.Triple() == e;
      UntilStarts(s, e, totalMonth0, days0);
      if totalMonth > 0 && days < 0 {
        totalMonth := totalMonth - 1;
        days := DaysFromMoved(endDate, totalMonth);
        UntilFromBorrowing(s, e, totalMonth0, days0, totalMonth);
      } else if totalMonth < 0 && days > 0 {
        totalMonth := totalMonth + 1;
        var n := endDate.LengthOfMonth();
        days := days - n;
        UntilFromLending(s, e, totalMonth0, days0, totalMonth, days);
      } else {
        UntilFromPlain(s, e, totalMonth0, days0);
      }
      period := YearsMonthsDays(TDiv(totalMonth, 12), TMod(totalMonth, 12), days);
    }

    /** The borrowing branch of `until(endDate:)`: days from a copy of this date moved by `months` to `endDate`. */
    method DaysFromMoved(endDate: LocalDate, months: int) returns (days: int)
      requires IsValid(Triple()) && IsValid(endDate.Triple())
      modifies this, endDate
      ensures Triple() == old(Triple()) && endDate.Triple() == old(endDate.Triple())
      ensures days == BorrowedDays(Triple(), endDate.Triple(), months)
    {
      ghost var s := Triple();
      var calcDate := new LocalDate.Copy(this);
      var m := calcDate.Month();
      ghost var c1 := calcDate.Triple();
      var value := m + months;
      calcDate.SetMonth(value);
      ghost var c2 := calcDate.Triple();
      MovedCopyIs(s, c1, c2, months, value);
      var e2 := endDate.EpochDay();
      assert Triple() == s;
      var e1 := calcDate.EpochDay();
      assert Triple() == s && endDate.Triple() == old(endDate.Triple());
      days := e2 - e1;
      BorrowedDaysIs(s, endDate.Triple(), c2, months, e1, e2);
    }

    // -------------------------------------------------------------------
    // Comparison operators: both operands are repaired in place

    /** `<`: true as soon as one repaired field of `lhs` is smaller. */
    static method Less(lhs: LocalDate, rhs: LocalDate) returns (less: bool)
      modifies lhs, rhs
      ensures lhs.Triple() == Normalized(old(lhs.Triple())) && rhs.Triple() == Normalized(old(rhs.Triple()))
      ensures less == Dates.Less(old(lhs.Triple()), old(rhs.Triple()))
    {
      lhs.Normalize();
      rhs.Normalize();
      var ly := lhs.Year();
      var ry := rhs.Year();
      if ly < ry {
        return true;
      }
      var lm := lhs.Month();
      var rm := rhs.Month();
      if lm < rm {
        return true;
      }
      var ld := lhs.Day();
      var rd := rhs.Day();
      if ld < rd {
        return true;
      }
      return false;
    }

    /** `>`: true as soon as one repaired field of `lhs` is larger. */
    static method Greater(lhs: LocalDate, rhs: LocalDate) returns (greater: bool)
      modifies lhs, rhs
      ensures lhs.Triple() == Normalized(old(lhs.Triple())) && rhs.Triple() == Normalized(old(rhs.Triple()))
      ensures greater == Dates.Greater(old(lhs.Triple()), old(rhs.Triple()))
    {
      lhs.Normalize();
      rhs.Normalize();
      var ly := lhs.Year();
      var ry := rhs.Year();
      if ly > ry {
        return true;
      }
      var lm := lhs.Month();
      var rm := rhs.Month();
      if lm > rm {
        return true;
      }
      var ld := lhs.Day();
      var rd := rhs.Day();
      if ld > rd {
        return true;
      }
      return false;
    }

    /** `<=` is the negation of `>`. */
    static method LessOrEqual(lhs: LocalDate, rhs: LocalDate) returns (b: bool)
      modifies lhs, rhs
      ensures lhs.Triple() == Normalized(old(lhs.Triple())) && rhs.Triple() == Normalized(old(rhs.Triple()))
      ensures b == !Dates.Greater(old(lhs.Triple()), old(rhs.Triple()))
    {
      var g := Greater(lhs, rhs);
      b := !g;
    }

    /** `>=` is the negation of `<`. */
    static method GreaterOrEqual(lhs: LocalDate, rhs: LocalDate) returns (b: bool)
      modifies lhs, rhs
      ensures lhs.Triple() == Normalized(old(lhs.Triple())) && rhs.Triple() == Normalized(old(rhs.Triple()))
      ensures b == !Dates.Less(old(lhs.Triple()), old(rhs.Triple()))
    {
      var l := Less(lhs, rhs);
      b := !l;
    }

    /** `==`: the repaired fields agree (compared through the getters, stopping at the first difference). */
    static method Equal(lhs: LocalDate, rhs: LocalDate) returns (equal: bool)
      modifies lhs, rhs
      ensures lhs.Triple() == Normalized(old(lhs.Triple())) && rhs.Triple() == Normalized(old(rhs.Triple()))
      ensures equal == Dates.Equal(old(lhs.Triple()), old(rhs.Triple()))
    {
      var ly := lhs.Year();
      var ry := rhs.Year();
      if ly != ry {
        return false;
      }
      var lm := lhs.Month();
      var rm := rhs.Month();
      if lm != rm {
        return false;
      }
      var ld := lhs.Day();
      var rd := rhs.Day();
      return ld == rd;
    }

    // -------------------------------------------------------------------
    // Operators

    /** `lhs + rhs`: a new date from the field-wise sums of the repaired fields, itself not repaired. */
    static method Add(lhs: LocalDate, rhs: LocalDate) returns (date: LocalDate)
      modifies lhs, rhs
      ensures lhs.Triple() == Normalized(old(lhs.Triple())) && rhs.Triple() == Normalized(old(rhs.Triple()))
      ensures fresh(date) && date.Triple() == Combined(old(lhs.Triple()), old(rhs.Triple()), 1)
    {
      date := Combine(lhs, rhs, 1);
    }

    /** `lhs - rhs`: the field-wise differences of the repaired fields. */
    static method Subtract(lhs: LocalDate, rhs: LocalDate) returns (date: LocalDate)
      modifies lhs, rhs
      ensures lhs.Triple() == Normalized(old(lhs.Triple())) && rhs.Triple() == Normalized(old(rhs.Triple()))
      ensures fresh(date) && date.Triple() == Combined(old(lhs.Triple()), old(rhs.Triple()), -1)
    {
      date := Combine(lhs, rhs, -1);
    }

    static method Combine(lhs: LocalDate, rhs: LocalDate, sign: int) returns (date: LocalDate)
      modifies lhs, rhs
      ensures lhs.Triple() == Normalized(old(lhs.Triple())) && rhs.Triple() == Normalized(old(rhs.Triple()))
      ensures fresh(date) && date.Triple() == Combined(old(lhs.Triple()), old(rhs.Triple()), sign)
    {
      var ly := lhs.Year();
      var ry := rhs.Year();
      var lm := lhs.Month();
      var rm := rhs.Month();
      var ld := lhs.Day();
      var rd := rhs.Day();
      date := new LocalDate(ly + sign * ry, lm + sign * rm, ld + sign * rd);
    }

    /** `lhs += rhs`: three compound assignments through the getters and setters. */
    static method AddAssign(lhs: LocalDate, rhs: LocalDate)
      modifies lhs, rhs
      ensures lhs != rhs ==> rhs.Triple() == Normalized(old(rhs.Triple()))
      ensures lhs != rhs ==> lhs.Triple() == Assigned(old(lhs.Triple()), old(rhs.Triple()), 1)
      ensures lhs == rhs ==> lhs.Triple() == SelfAssigned(old(lhs.Triple()), 1)
    {
      CompoundAssign(lhs, rhs, 1);
    }

    /** `lhs -= rhs`. */
    static method SubtractAssign(lhs: LocalDate, rhs: LocalDate)
      modifies lhs, rhs
      ensures lhs != rhs ==> rhs.Triple() == Normalized(old(rhs.Triple()))
      ensures lhs != rhs ==> lhs.Triple() == Assigned(old(lhs.Triple()), old(rhs.Triple()), -1)
      ensures lhs == rhs ==> lhs.Triple() == SelfAssigned(old(lhs.Triple()), -1)
    {
      CompoundAssign(lhs, rhs, -1);
    }

    static method CompoundAssign(lhs: LocalDate, rhs: LocalDate, sign: int)
      modifies lhs, rhs
      ensures lhs != rhs ==> rhs.Triple() == Normalized(old(rhs.Triple()))
      ensures lhs != rhs ==> lhs.Triple() == Assigned(old(lhs.Triple()), old(rhs.Triple()), sign)
      ensures lhs == rhs ==> lhs.Triple() == SelfAssigned(old(lhs.Triple()), sign)
    {
      if lhs == rhs {
        SelfCompoundAssign(lhs, sign);
      } else {
        DistinctCompoundAssign(lhs, rhs, sign);
      }
    }

    /** The three compound assignments when `rhs` is another object: it is repaired and left so. */
    static method DistinctCompoundAssign(lhs: LocalDate, rhs: LocalDate, sign: int)
      requires lhs != rhs
      modifies lhs, rhs
      ensures rhs.Triple() == Normalized(old(rhs.Triple()))
      ensures lhs.Triple() == Assigned(old(lhs.Triple()), old(rhs.Triple()), sign)
    {
      ghost var t0 := lhs.Triple();
      ghost var r := Normalized(rhs.Triple());
      var a := lhs.Year();
      ghost var n := lhs.Triple();
      var b := rhs.Year();
      var value := a + sign * b;
      lhs.SetYear(value);
      SetterStepIs(t0, n, lhs.Triple(), Component.Year, sign * r.year, value);
      ghost var t1 := lhs.Triple();
      a := lhs.Month();
      n := lhs.Triple();
      b := rhs.Month();
      value := a + sign * b;
      lhs.SetMonth(value);
      SetterStepIs(t1, n, lhs.Triple(), Component.Month, sign * r.month, value);
      ghost var t2 := lhs.Triple();
      a := lhs.Day();
      n := lhs.Triple();
      b := rhs.Day();
      value := a + sign * b;
      lhs.SetDay(value);
      SetterStepIs(t2, n, lhs.Triple(), Component.Day, sign * r.day, value);
    }

    /** The three compound assignments when both sides are the same object (`date += date`). */
    static method SelfCompoundAssign(date: LocalDate, sign: int)
      modifies date
      ensures date.Triple() == SelfAssigned(old(date.Triple()), sign)
    {
      ghost var t0 := date.Triple();
      var a := date.Year();
      ghost var n := date.Triple();
      var b := date.Year();
      var value := a + sign * b;
      date.SetYear(value);
      ScaleStepIs(t0, n, date.Triple(), Component.Year, sign, value);
      ghost var t1 := date.Triple();
      a := date.Month();
      n := date.Triple();
      b := date.Month();
      value := a + sign * b;
      date.SetMonth(value);
      ScaleStepIs(t1, n, date.Triple(), Component.Month, sign, value);
      ghost var t2 := date.Triple();
      a := date.Day();
      n := date.Triple();
      b := date.Day();
      value := a + sign * b;
      date.SetDay(value);
      ScaleStepIs(t2, n, date.Triple(), Component.Day, sign, value);
    }
  }
}
