/**
 * `Period`: a signed amount of years, months, days, hours, minutes,
 * seconds and nanoseconds that repairs itself on every write.  The repair
 * carries the sub-day fields as one mixed-radix number under truncating
 * division and then folds the calendar part through
 * `LocalDate(year, month + 1, day + 1)`, so the month and the day count
 * from zero and the period's own year decides the month lengths.
 */
module Periods {
  import opened Arith
  import opened Calendar
  import opened Dates
  import opened Times
  import opened DateTimes
  import LocalDates
  import LocalDateTimes
  import EpochDays
  import DateLaws

  datatype PeriodFields = PeriodFields(year: int, month: int, day: int, hour: int, minute: int, second: int, nano: int)

  // ---------------------------------------------------------------------
  // The repair, one step per pair of fields

  /** Whole seconds of the nanoseconds move into the seconds. */
  function CarryNano(p: PeriodFields): PeriodFields
  {
    p.(second := TDiv(p.nano, NanosPerSecond) + p.second, nano := TMod(p.nano, NanosPerSecond))
  }

  function CarrySecond(p: PeriodFields): PeriodFields
  {
    p.(minute := TDiv(p.second, SecondsPerMinute) + p.minute, second := TMod(p.second, SecondsPerMinute))
  }

  function CarryMinute(p: PeriodFields): PeriodFields
  {
    p.(hour := TDiv(p.minute, MinutesPerHour) + p.hour, minute := TMod(p.minute, MinutesPerHour))
  }

  function CarryHour(p: PeriodFields): PeriodFields
  {
    p.(day := TDiv(p.hour, HoursPerDay) + p.day, hour := TMod(p.hour, HoursPerDay))
  }

  /** The sub-day carry of `normalize`, nanoseconds first. */
  function SubDayCarry(p: PeriodFields): PeriodFields
  {
    CarryHour(CarryMinute(CarrySecond(CarryNano(p))))
  }

  /** The calendar part read back from the repaired `LocalDate(year, month + 1, day + 1)`. */
  function CalendarFold(p: PeriodFields): PeriodFields
  {
    var d := Normalized(Date(p.year, p.month + 1, p.day + 1));
    p.(year := d.year, month := d.month - 1, day := d.day - 1)
  }

  /** The fold stores the repaired date's fields, the month and the day less one. */
  lemma FoldReadsBack(p: PeriodFields, d: Date)
    requires d == Normalized(Date(p.year, p.month + 1, p.day + 1))
    ensures CalendarFold(p) == PeriodFields(d.year, d.month - 1, d.day - 1, p.hour, p.minute, p.second, p.nano)
  {
  }

  /** `normalize`: the sub-day carry, then the calendar fold. */
  function NormalizedPeriod(p: PeriodFields): PeriodFields
  {
    CalendarFold(SubDayCarry(p))
  }

  /** The days and time of a period as one count of nanoseconds. */
  function Nanos(p: PeriodFields): int
  {
    (((p.day * HoursPerDay + p.hour) * MinutesPerHour + p.minute) * SecondsPerMinute + p.second) * NanosPerSecond + p.nano
  }

  // ---------------------------------------------------------------------
  // What the repair keeps and what it guarantees

  /** The sub-day carry is exact: no nanosecond is lost or gained, and the calendar fields stay for the fold. */
  lemma SubDayCarryConserves(p: PeriodFields)
    ensures Nanos(SubDayCarry(p)) == Nanos(p)
    ensures SubDayCarry(p).year == p.year && SubDayCarry(p).month == p.month
  {
    var a := CarryNano(p);
    assert Nanos(a) == Nanos(p);
    var b := CarrySecond(a);
    assert Nanos(b) == Nanos(a);
    var c := CarryMinute(b);
    assert Nanos(c) == Nanos(b);
    assert Nanos(CarryHour(c)) == Nanos(c);
  }

  /**
   * Every repaired period has each sub-day field strictly inside its radix
   * (with the sign of what was carried into it), a month from 0 to 11 and
   * a day below the length of its month in its year.
   */
  lemma NormalizedPeriodInRange(p: PeriodFields)
    ensures var r := NormalizedPeriod(p);
            && -NanosPerSecond < r.nano < NanosPerSecond
            && -SecondsPerMinute < r.second < SecondsPerMinute
            && -MinutesPerHour < r.minute < MinutesPerHour
            && -HoursPerDay < r.hour < HoursPerDay
            && 0 <= r.month <= 11
            && 0 <= r.day < LengthOfMonth(r.year, r.month + 1)
  {
  }

  /** From non-negative sub-day fields the carry gives the usual ranges. */
  lemma NormalizedPeriodBounds(p: PeriodFields)
    requires 0 <= p.hour && 0 <= p.minute && 0 <= p.second && 0 <= p.nano
    ensures var r := NormalizedPeriod(p);
            && 0 <= r.nano < NanosPerSecond
            && 0 <= r.second < SecondsPerMinute
            && 0 <= r.minute < MinutesPerHour
            && 0 <= r.hour < HoursPerDay
  {
  }

  /** Sub-day fields each smaller in size than their radix carry nothing. */
  lemma SmallFieldsCarryNothing(p: PeriodFields)
    requires -NanosPerSecond < p.nano < NanosPerSecond && -SecondsPerMinute < p.second < SecondsPerMinute
    requires -MinutesPerHour < p.minute < MinutesPerHour && -HoursPerDay < p.hour < HoursPerDay
    ensures SubDayCarry(p) == p
  {
    TruncatedOfSmall(p.nano, NanosPerSecond);
    assert CarryNano(p) == p;
    TruncatedOfSmall(p.second, SecondsPerMinute);
    assert CarrySecond(p) == p;
    TruncatedOfSmall(p.minute, MinutesPerHour);
    assert CarryMinute(p) == p;
    TruncatedOfSmall(p.hour, HoursPerDay);
  }

  /** A period within every range is its own repair. */
  lemma InRangeUnchanged(p: PeriodFields)
    requires -NanosPerSecond < p.nano < NanosPerSecond && -SecondsPerMinute < p.second < SecondsPerMinute
    requires -MinutesPerHour < p.minute < MinutesPerHour && -HoursPerDay < p.hour < HoursPerDay
    requires 0 <= p.month <= 11 && 0 <= p.day < LengthOfMonth(p.year, p.month + 1)
    ensures NormalizedPeriod(p) == p
  {
    SmallFieldsCarryNothing(p);
    assert IsValid(Date(p.year, p.month + 1, p.day + 1));
  }

  /** Repairing a repaired period changes nothing, so no setter result is ever unrepaired. */
  lemma NormalizedPeriodIdempotent(p: PeriodFields)
    ensures NormalizedPeriod(NormalizedPeriod(p)) == NormalizedPeriod(p)
  {
    NormalizedPeriodInRange(p);
    InRangeUnchanged(NormalizedPeriod(p));
  }

  /** From year 0 on, a twelfth month (counted from zero) in range of January becomes month 0 of the next year. */
  lemma TwelfthMonthRollsOver(p: PeriodFields)
    requires 0 <= p.year && p.month == 12 && 0 <= p.day < 31
    requires 0 <= p.nano < NanosPerSecond && 0 <= p.second < SecondsPerMinute
    requires 0 <= p.minute < MinutesPerHour && 0 <= p.hour < HoursPerDay
    ensures NormalizedPeriod(p) == p.(year := p.year + 1, month := 0)
  {
    assert SubDayCarry(p) == p;
    var t := Date(p.year, 13, p.day + 1);
    var next := Date(p.year + 1, 1, p.day + 1);
    TruncatedIsEuclideanWhenNonNegative(ProlepticMonth(t), 12);
    assert Folded(t) == next;
    EpochDays.EpochDayRoundTrip(next);
    assert Normalized(t) == next;
  }

  /** 25 hours are one day and one hour. */
  lemma HoursCarryIntoDays()
    ensures NormalizedPeriod(PeriodFields(0, 0, 0, 25, 0, 0, 0)) == PeriodFields(0, 0, 1, 1, 0, 0, 0)
  {
    assert SubDayCarry(PeriodFields(0, 0, 0, 25, 0, 0, 0)) == PeriodFields(0, 0, 1, 1, 0, 0, 0);
    assert IsValid(Date(0, 1, 2));
  }

  /** 3661 seconds are one hour, one minute and one second. */
  lemma SecondsCarryIntoHours()
    ensures NormalizedPeriod(PeriodFields(0, 0, 0, 0, 0, 3661, 0)) == PeriodFields(0, 0, 0, 1, 1, 1, 0)
  {
    assert SubDayCarry(PeriodFields(0, 0, 0, 0, 0, 3661, 0)) == PeriodFields(0, 0, 0, 1, 1, 1, 0);
    assert IsValid(Date(0, 1, 1));
  }

  /** A period whose sub-day fields carry nothing is repaired by the calendar fold alone. */
  lemma NormalizedPeriodIs(p: PeriodFields, d: Date)
    requires -NanosPerSecond < p.nano < NanosPerSecond && -SecondsPerMinute < p.second < SecondsPerMinute
    requires -MinutesPerHour < p.minute < MinutesPerHour && -HoursPerDay < p.hour < HoursPerDay
    requires d == Normalized(Date(p.year, p.month + 1, p.day + 1))
    ensures NormalizedPeriod(p) == PeriodFields(d.year, d.month - 1, d.day - 1, p.hour, p.minute, p.second, p.nano)
  {
    SmallFieldsCarryNothing(p);
    FoldReadsBack(p, d);
  }

  /**
   * The period's own year decides the month lengths: 28 days after month 1
   * stays in year 0, a leap year, but rolls into month 2 in year 1.
   */
  lemma DayCarryUsesOwnYear()
    ensures NormalizedPeriod(PeriodFields(0, 1, 28, 0, 0, 0, 0)) == PeriodFields(0, 1, 28, 0, 0, 0, 0)
    ensures NormalizedPeriod(PeriodFields(1, 1, 28, 0, 0, 0, 0)) == PeriodFields(1, 2, 0, 0, 0, 0, 0)
  {
    assert IsLeapYear(0) && !IsLeapYear(1);
    InRangeUnchanged(PeriodFields(0, 1, 28, 0, 0, 0, 0));
    DateLaws.LeapDayInCommonYear(1);
    NormalizedPeriodIs(PeriodFields(1, 1, 28, 0, 0, 0, 0), Date(1, 3, 1));
  }

  // ---------------------------------------------------------------------
  // Arithmetic on periods

  /** The field-wise sum (`sign == 1`) or difference (`sign == -1`) that `+` and `-` hand to `init`. */
  function Sum(l: PeriodFields, r: PeriodFields, sign: int): PeriodFields
  {
    PeriodFields(l.year + sign * r.year, l.month + sign * r.month, l.day + sign * r.day,
                 l.hour + sign * r.hour, l.minute + sign * r.minute, l.second + sign * r.second,
                 l.nano + sign * r.nano)
  }

  /** The seven properties of a period. */
  predicate IsPeriodField(field: Component)
  {
    field.Year? || field.Month? || field.Day? || field.Hour? || field.Minute? || field.Second? || field.Nanosecond?
  }

  /** The getter of one property. */
  function FieldOf(p: PeriodFields, field: Component): int
    requires IsPeriodField(field)
  {
    match field
    case Year => p.year
    case Month => p.month
    case Day => p.day
    case Hour => p.hour
    case Minute => p.minute
    case Second => p.second
    case Nanosecond => p.nano
  }

  /** The fields with one property replaced, before any repair. */
  function WithField(p: PeriodFields, field: Component, value: int): PeriodFields
    requires IsPeriodField(field)
  {
    match field
    case Year => p.(year := value)
    case Month => p.(month := value)
    case Day => p.(day := value)
    case Hour => p.(hour := value)
    case Minute => p.(minute := value)
    case Second => p.(second := value)
    case Nanosecond => p.(nano := value)
  }

  /** What a property's setter stores: the fields with that property replaced, repaired. */
  function Assigning(p: PeriodFields, field: Component, value: int): PeriodFields
    requires IsPeriodField(field)
  {
    NormalizedPeriod(WithField(p, field, value))
  }

  /** One compound assignment `period.field += amount`: the getter, then the setter. */
  function AddToField(p: PeriodFields, field: Component, amount: int): PeriodFields
    requires IsPeriodField(field)
  {
    Assigning(p, field, FieldOf(p, field) + amount)
  }

  /** A compound assignment is its getter followed by its setter with the new value. */
  lemma AddToFieldIsAssigning(p: PeriodFields, field: Component, amount: int, value: int)
    requires IsPeriodField(field) && value == FieldOf(p, field) + amount
    ensures AddToField(p, field, amount) == Assigning(p, field, value)
  {}

  /** `lhs += rhs` and `lhs -= rhs`: seven compound assignments in turn, each repairing, with `rhs` read as it was. */
  function Assigned(l: PeriodFields, r: PeriodFields, sign: int): PeriodFields
  {
    var y := AddToField(l, Component.Year, sign * r.year);
    var m := AddToField(y, Component.Month, sign * r.month);
    var d := AddToField(m, Component.Day, sign * r.day);
    var h := AddToField(d, Component.Hour, sign * r.hour);
    var mi := AddToField(h, Component.Minute, sign * r.minute);
    var s := AddToField(mi, Component.Second, sign * r.second);
    AddToField(s, Component.Nanosecond, sign * r.nano)
  }

  // The steps of the example below, one repair each.

  lemma SumRepairedOnce()
    ensures NormalizedPeriod(Sum(PeriodFields(2024, 1, 28, 0, 0, 0, 0), PeriodFields(1, 1, 1, 0, 0, 0, 0), 1))
            == PeriodFields(2025, 2, 29, 0, 0, 0, 0)
  {
    InRangeUnchanged(PeriodFields(2025, 2, 29, 0, 0, 0, 0));
  }

  lemma YearStepRepairs()
    ensures AddToField(PeriodFields(2024, 1, 28, 0, 0, 0, 0), Component.Year, 1) == PeriodFields(2025, 2, 0, 0, 0, 0, 0)
  {
    assert !IsLeapYear(2025);
    DateLaws.LeapDayInCommonYear(2025);
    NormalizedPeriodIs(PeriodFields(2025, 1, 28, 0, 0, 0, 0), Date(2025, 3, 1));
  }

  lemma MonthStepKeeps()
    ensures AddToField(PeriodFields(2025, 2, 0, 0, 0, 0, 0), Component.Month, 1) == PeriodFields(2025, 3, 0, 0, 0, 0, 0)
  {
    InRangeUnchanged(PeriodFields(2025, 3, 0, 0, 0, 0, 0));
  }

  lemma DayStepKeeps()
    ensures AddToField(PeriodFields(2025, 3, 0, 0, 0, 0, 0), Component.Day, 1) == PeriodFields(2025, 3, 1, 0, 0, 0, 0)
    ensures NormalizedPeriod(PeriodFields(2025, 3, 1, 0, 0, 0, 0)) == PeriodFields(2025, 3, 1, 0, 0, 0, 0)
  {
    InRangeUnchanged(PeriodFields(2025, 3, 1, 0, 0, 0, 0));
  }

  /** Adding nothing to any field of a repaired period keeps it. */
  lemma ZeroStepKeeps(p: PeriodFields, field: Component)
    requires IsPeriodField(field) && NormalizedPeriod(p) == p
    ensures AddToField(p, field, 0) == p
  {
    assert WithField(p, field, FieldOf(p, field) + 0) == p;
  }

  /**
   * `+=` repairs after every field, `+` once at the end, and they differ:
   * 1 year, 1 month and 1 day added to year 2024, month 1, day 28 (29
   * February) is month 2, day 29 with `+` (30 March) but month 3, day 1
   * with `+=`, because 29 February 2025 is repaired to 1 March before the
   * month is added.
   */
  lemma CompoundAddIsNotAdd()
    ensures NormalizedPeriod(Sum(PeriodFields(2024, 1, 28, 0, 0, 0, 0), PeriodFields(1, 1, 1, 0, 0, 0, 0), 1))
            == PeriodFields(2025, 2, 29, 0, 0, 0, 0)
    ensures Assigned(PeriodFields(2024, 1, 28, 0, 0, 0, 0), PeriodFields(1, 1, 1, 0, 0, 0, 0), 1)
            == PeriodFields(2025, 3, 1, 0, 0, 0, 0)
  {
    SumRepairedOnce();
    CompoundAddRepairsEachStep();
  }

  lemma CompoundAddRepairsEachStep()
    ensures Assigned(PeriodFields(2024, 1, 28, 0, 0, 0, 0), PeriodFields(1, 1, 1, 0, 0, 0, 0), 1)
            == PeriodFields(2025, 3, 1, 0, 0, 0, 0)
  {
    var d := PeriodFields(2025, 3, 1, 0, 0, 0, 0);
    DateStepsOfExample();
    DayStepKeeps();
    AssignedOfDateSteps(PeriodFields(2024, 1, 28, 0, 0, 0, 0), PeriodFields(1, 1, 1, 0, 0, 0, 0), 1, d);
  }

  /** When the period added has no time part, only its three date steps can change anything. */
  lemma AssignedOfDateSteps(l: PeriodFields, r: PeriodFields, sign: int, d: PeriodFields)
    requires AddToField(AddToField(AddToField(l, Component.Year, sign * r.year), Component.Month, sign * r.month),
                        Component.Day, sign * r.day) == d
    requires r.hour == 0 && r.minute == 0 && r.second == 0 && r.nano == 0
    requires NormalizedPeriod(d) == d
    ensures Assigned(l, r, sign) == d
  {
    assert sign * r.hour == 0 && sign * r.minute == 0 && sign * r.second == 0 && sign * r.nano == 0;
    TimeStepsOfNothingKeep(d);
  }

  lemma DateStepsOfExample()
    ensures AddToField(AddToField(AddToField(PeriodFields(2024, 1, 28, 0, 0, 0, 0), Component.Year, 1), Component.Month, 1), Component.Day, 1)
            == PeriodFields(2025, 3, 1, 0, 0, 0, 0)
  {
    YearStepRepairs();
    MonthStepKeeps();
    DayStepKeeps();
  }

  lemma TimeStepsOfNothingKeep(p: PeriodFields)
    requires NormalizedPeriod(p) == p
    ensures AddToField(AddToField(AddToField(AddToField(p, Component.Hour, 0), Component.Minute, 0), Component.Second, 0), Component.Nanosecond, 0) == p
  {
    ZeroStepKeeps(p, Component.Hour);
    ZeroStepKeeps(p, Component.Minute);
    ZeroStepKeeps(p, Component.Second);
    ZeroStepKeeps(p, Component.Nanosecond);
  }

  // ---------------------------------------------------------------------
  // A date-time moved by a period

  /**
   * `dateTime + period` and `dateTime - period`: a new date-time from the
   * settled fields of the date-time plus or minus the period's fields,
   * stored without any repair.
   */
  function Shifted(dt: DateTime, p: PeriodFields, sign: int): DateTime
  {
    var s := Settled(dt);
    DateTime(Date(s.date.year + sign * p.year, s.date.month + sign * p.month, s.date.day + sign * p.day),
             Time(s.time.hour + sign * p.hour, s.time.minute + sign * p.minute,
                  s.time.second + sign * p.second, s.time.nano + sign * p.nano))
  }

  /**
   * One compound assignment `dateTime.field += amount`: a date field is read
   * and written through the settled date; a time field is read and written
   * after the carry alone.
   */
  function AddToDateTimeField(dt: DateTime, field: Component, amount: int): DateTime
  {
    if field == Component.Year || field == Component.Month || field == Component.Day then
      var s := Settled(dt);
      s.(date := if field == Component.Year then s.date.(year := s.date.year + amount)
                 else if field == Component.Month then s.date.(month := s.date.month + amount)
                 else s.date.(day := s.date.day + amount))
    else
      var c := Carried(dt);
      c.(time := if field == Component.Hour then c.time.(hour := c.time.hour + amount)
                 else if field == Component.Minute then c.time.(minute := c.time.minute + amount)
                 else if field == Component.Second then c.time.(second := c.time.second + amount)
                 else c.time.(nano := c.time.nano + amount))
  }

  /** `dateTime += period` and `dateTime -= period`: seven compound assignments in turn. */
  function ShiftedInPlace(dt: DateTime, p: PeriodFields, sign: int): DateTime
  {
    var y := AddToDateTimeField(dt, Component.Year, sign * p.year);
    var m := AddToDateTimeField(y, Component.Month, sign * p.month);
    var d := AddToDateTimeField(m, Component.Day, sign * p.day);
    var h := AddToDateTimeField(d, Component.Hour, sign * p.hour);
    var mi := AddToDateTimeField(h, Component.Minute, sign * p.minute);
    var s := AddToDateTimeField(mi, Component.Second, sign * p.second);
    AddToDateTimeField(s, Component.Nanosecond, sign * p.nano)
  }

  /** A minute, second or nanosecond step reads the time after the carry and leaves its hour as carried. */
  lemma TimeStepLeavesCarriedHour(dt: DateTime, field: Component, amount: int)
    requires field == Component.Minute || field == Component.Second || field == Component.Nanosecond
    ensures AddToDateTimeField(dt, field, amount).time.hour == Carried(dt).time.hour < HoursPerDay
  {
  }

  /** After `+=` the hour is always carried: the last step's getter carries whatever the earlier setters stored. */
  lemma ShiftedInPlaceCarriesHour(dt: DateTime, p: PeriodFields, sign: int)
    ensures ShiftedInPlace(dt, p, sign).time.hour < HoursPerDay
  {
    var y := AddToDateTimeField(dt, Component.Year, sign * p.year);
    var m := AddToDateTimeField(y, Component.Month, sign * p.month);
    var d := AddToDateTimeField(m, Component.Day, sign * p.day);
    var h := AddToDateTimeField(d, Component.Hour, sign * p.hour);
    var mi := AddToDateTimeField(h, Component.Minute, sign * p.minute);
    var s := AddToDateTimeField(mi, Component.Second, sign * p.second);
    TimeStepLeavesCarriedHour(s, Component.Nanosecond, sign * p.nano);
  }

  /** A date step that adds nothing to a date-time with a valid date and an hour below 24 keeps it. */
  lemma DateStepOfNothing(dt: DateTime, field: Component)
    requires IsValid(dt.date) && dt.time.hour < HoursPerDay
    requires field == Component.Year || field == Component.Month || field == Component.Day
    ensures AddToDateTimeField(dt, field, 0) == dt
  {
    assert Settled(dt) == dt;
  }

  /** A minute, second or nanosecond step that adds nothing leaves the carried date-time. */
  lemma TimeStepOfNothing(dt: DateTime, field: Component)
    requires field == Component.Minute || field == Component.Second || field == Component.Nanosecond
    ensures AddToDateTimeField(dt, field, 0) == Carried(dt)
  {
  }

  /**
   * `+=` of a period of hours alone to a date-time with a valid date and an
   * hour below 24: the hour is added, and the minute's getter then carries
   * it into the day, which nothing repairs afterwards.
   */
  lemma ShiftedInPlaceOfHours(dt: DateTime, p: PeriodFields, sign: int)
    requires IsValid(dt.date) && dt.time.hour < HoursPerDay
    requires p.year == 0 && p.month == 0 && p.day == 0 && p.minute == 0 && p.second == 0 && p.nano == 0
    ensures ShiftedInPlace(dt, p, sign) == Carried(dt.(time := dt.time.(hour := dt.time.hour + sign * p.hour)))
  {
    assert sign * p.year == 0 && sign * p.month == 0 && sign * p.day == 0;
    assert sign * p.minute == 0 && sign * p.second == 0 && sign * p.nano == 0;
    DateStepOfNothing(dt, Component.Year);
    DateStepOfNothing(dt, Component.Month);
    DateStepOfNothing(dt, Component.Day);
    var h := dt.(time := dt.time.(hour := dt.time.hour + sign * p.hour));
    assert AddToDateTimeField(dt, Component.Hour, sign * p.hour) == h;
    TimeStepOfNothing(h, Component.Minute);
    CarryIdempotent(h);
    TimeStepOfNothing(Carried(h), Component.Second);
    TimeStepOfNothing(Carried(h), Component.Nanosecond);
  }

  /** `+` of an hour to 2024-01-31 23:00 stores hour 24 on the same date. */
  lemma ShiftStoresUncarried()
    ensures Shifted(DateTime(Date(2024, 1, 31), Time(23, 0, 0, 0)), PeriodFields(0, 0, 0, 1, 0, 0, 0), 1)
            == DateTime(Date(2024, 1, 31), Time(24, 0, 0, 0))
  {
    assert IsValid(Date(2024, 1, 31));
    assert Settled(DateTime(Date(2024, 1, 31), Time(23, 0, 0, 0))) == DateTime(Date(2024, 1, 31), Time(23, 0, 0, 0));
  }

  /** `+=` of an hour to 2024-01-31 23:00 carries it into day 32 of January, unrepaired. */
  lemma ShiftInPlaceCarries()
    ensures ShiftedInPlace(DateTime(Date(2024, 1, 31), Time(23, 0, 0, 0)), PeriodFields(0, 0, 0, 1, 0, 0, 0), 1)
            == DateTime(Date(2024, 1, 32), Time(0, 0, 0, 0))
  {
    var start := DateTime(Date(2024, 1, 31), Time(23, 0, 0, 0));
    assert IsValid(start.date);
    ShiftedInPlaceOfHours(start, PeriodFields(0, 0, 0, 1, 0, 0, 0), 1);
    var h := DateTime(Date(2024, 1, 31), Time(24, 0, 0, 0));
    assert start.(time := start.time.(hour := start.time.hour + 1 * 1)) == h;
    MidnightCarries();
  }

  /** Hour 24 of 2024-01-31 carries into hour 0 of day 32 of January. */
  lemma MidnightCarries()
    ensures Carried(DateTime(Date(2024, 1, 31), Time(24, 0, 0, 0))) == DateTime(Date(2024, 1, 32), Time(0, 0, 0, 0))
  {
    assert IsValid(Date(2024, 1, 31));
  }

  /** Day 32 of January 2024 reads back as 2024-02-01. */
  lemma DayAfterJanuaryReadsBack()
    ensures Settled(DateTime(Date(2024, 1, 32), Time(0, 0, 0, 0))) == DateTime(Date(2024, 2, 1), Time(0, 0, 0, 0))
  {
    assert IsValid(Date(2024, 1, 31));
    DateLaws.PlusOneDayIsSucc(Date(2024, 1, 31));
  }

  /** Hour 24 of 2024-01-31 and hour 0 of day 32 of January both read back as 2024-02-01 00:00. */
  lemma MidnightReadsBack()
    ensures Settled(DateTime(Date(2024, 1, 31), Time(24, 0, 0, 0))) == DateTime(Date(2024, 2, 1), Time(0, 0, 0, 0))
    ensures Settled(DateTime(Date(2024, 1, 32), Time(0, 0, 0, 0))) == DateTime(Date(2024, 2, 1), Time(0, 0, 0, 0))
  {
    MidnightCarries();
    DayAfterJanuaryReadsBack();
  }

  /**
   * `+` leaves the carry to the next read, `+=` carries on the way but
   * leaves the day it carried into unrepaired: an hour added to 2024-01-31
   * 23:00 is stored as hour 24 of 2024-01-31 by `+` and as hour 0 of day 32
   * of January by `+=`, and both read back as 2024-02-01 00:00.
   */
  lemma ShiftDefersCarry()
    ensures Shifted(DateTime(Date(2024, 1, 31), Time(23, 0, 0, 0)), PeriodFields(0, 0, 0, 1, 0, 0, 0), 1)
            == DateTime(Date(2024, 1, 31), Time(24, 0, 0, 0))
    ensures ShiftedInPlace(DateTime(Date(2024, 1, 31), Time(23, 0, 0, 0)), PeriodFields(0, 0, 0, 1, 0, 0, 0), 1)
            == DateTime(Date(2024, 1, 32), Time(0, 0, 0, 0))
    ensures Settled(DateTime(Date(2024, 1, 31), Time(24, 0, 0, 0))) == DateTime(Date(2024, 2, 1), Time(0, 0, 0, 0))
    ensures Settled(DateTime(Date(2024, 1, 32), Time(0, 0, 0, 0))) == DateTime(Date(2024, 2, 1), Time(0, 0, 0, 0))
  {
    ShiftStoresUncarried();
    ShiftInPlaceCarries();
    MidnightReadsBack();
  }

  // ---------------------------------------------------------------------
  // The `Period` struct

  class Period {
    var internalYear: int
    var internalMonth: int
    var internalDay: int
    var internalHour: int
    var internalMinute: int
    var internalSecond: int
    var internalNano: int

    function Fields(): PeriodFields
      reads this
    {
      PeriodFields(internalYear, internalMonth, internalDay, internalHour, internalMinute, internalSecond, internalNano)
    }

    // The getters return the stored fields and change nothing.
    function Year(): int reads this { internalYear }
    function Month(): int reads this { internalMonth }
    function Day(): int reads this { internalDay }
    function Hour(): int reads this { internalHour }
    function Minute(): int reads this { internalMinute }
    function Second(): int reads this { internalSecond }
    function Nano(): int reads this { internalNano }

    /** `init(year:month:day:hour:minute:second:nano:)` stores the fields and repairs. */
    constructor (year: int, month: int, day: int, hour: int, minute: int, second: int, nano: int)
      ensures Fields() == NormalizedPeriod(PeriodFields(year, month, day, hour, minute, second, nano))
    {
      internalYear, internalMonth, internalDay := year, month, day;
      internalHour, internalMinute, internalSecond, internalNano := hour, minute, second, nano;
      new;
      Normalize();
    }

    /**
     * `normalize`: the sub-day fields carry upward through truncating
     * division, then the year, month and day are read back from a
     * `LocalDate` built of the year, the month plus one and the carried days
     * plus one.
     */
    method Normalize()
      modifies this
      ensures Fields() == NormalizedPeriod(old(Fields()))
    {
      ghost var p := Fields();
      var year, month, day := internalYear, internalMonth, internalDay;
      var hour, minute, second, nano := internalHour, internalMinute, internalSecond, internalNano;
      internalNano := nano;
      internalSecond := TDiv(internalNano, NanosPerSecond) + second;
      internalNano := TMod(internalNano, NanosPerSecond);
      assert Fields() == CarryNano(p);
      internalMinute := TDiv(internalSecond, SecondsPerMinute) + minute;
      internalSecond := TMod(internalSecond, SecondsPerMinute);
      assert Fields() == CarrySecond(CarryNano(p));
      internalHour := TDiv(internalMinute, MinutesPerHour) + hour;
      internalMinute := TMod(internalMinute, MinutesPerHour);
      assert Fields() == CarryMinute(CarrySecond(CarryNano(p)));
      var days := TDiv(internalHour, HoursPerDay) + day;
      internalHour := TMod(internalHour, HoursPerDay);
      ghost var c := SubDayCarry(p);
      assert Fields().(day := days) == c;
      ghost var unfolded := Date(c.year, c.month + 1, c.day + 1);
      ghost var folded := Normalized(unfolded);
      var newDate := new LocalDates.LocalDate(year, month + 1, days + 1);
      assert newDate.Triple() == unfolded;
      var y := newDate.Year();
      assert newDate.Triple() == folded;
      internalYear := y;
      var m := newDate.Month();
      assert newDate.Triple() == folded;
      internalMonth := m - 1;
      var d := newDate.Day();
      assert newDate.Triple() == folded;
      internalDay := d - 1;
      FoldReadsBack(c, folded);
    }

    method SetYear(year: int)
      modifies this
      ensures Fields() == Assigning(old(Fields()), Component.Year, year)
    {
      internalYear := year;
      Normalize();
    }

    method SetMonth(month: int)
      modifies this
      ensures Fields() == Assigning(old(Fields()), Component.Month, month)
    {
      internalMonth := month;
      Normalize();
    }

    method SetDay(day: int)
      modifies this
      ensures Fields() == Assigning(old(Fields()), Component.Day, day)
    {
      internalDay := day;
      Normalize();
    }

    method SetHour(hour: int)
      modifies this
      ensures Fields() == Assigning(old(Fields()), Component.Hour, hour)
    {
      internalHour := hour;
      Normalize();
    }

    method SetMinute(minute: int)
      modifies this
      ensures Fields() == Assigning(old(Fields()), Component.Minute, minute)
    {
      internalMinute := minute;
      Normalize();
    }

    method SetSecond(second: int)
      modifies this
      ensures Fields() == Assigning(old(Fields()), Component.Second, second)
    {
      internalSecond := second;
      Normalize();
    }

    method SetNano(nano: int)
      modifies this
      ensures Fields() == Assigning(old(Fields()), Component.Nanosecond, nano)
    {
      internalNano := nano;
      Normalize();
    }

    /** `lhs + rhs`: the field-wise sums, repaired once. */
    static method Add(lhs: Period, rhs: Period) returns (p: Period)
      ensures fresh(p) && p.Fields() == NormalizedPeriod(Sum(lhs.Fields(), rhs.Fields(), 1))
    {
      var year, month, day := lhs.Year() + rhs.Year(), lhs.Month() + rhs.Month(), lhs.Day() + rhs.Day();
      var hour, minute := lhs.Hour() + rhs.Hour(), lhs.Minute() + rhs.Minute();
      var second, nano := lhs.Second() + rhs.Second(), lhs.Nano() + rhs.Nano();
      assert PeriodFields(year, month, day, hour, minute, second, nano) == Sum(lhs.Fields(), rhs.Fields(), 1);
      p := new Period(year, month, day, hour, minute, second, nano);
    }

    /** `lhs - rhs`: the field-wise differences, repaired once. */
    static method Subtract(lhs: Period, rhs: Period) returns (p: Period)
      ensures fresh(p) && p.Fields() == NormalizedPeriod(Sum(lhs.Fields(), rhs.Fields(), -1))
    {
      var year, month, day := lhs.Year() - rhs.Year(), lhs.Month() - rhs.Month(), lhs.Day() - rhs.Day();
      var hour, minute := lhs.Hour() - rhs.Hour(), lhs.Minute() - rhs.Minute();
      var second, nano := lhs.Second() - rhs.Second(), lhs.Nano() - rhs.Nano();
      assert PeriodFields(year, month, day, hour, minute, second, nano) == Sum(lhs.Fields(), rhs.Fields(), -1);
      p := new Period(year, month, day, hour, minute, second, nano);
    }

    static method AddAssign(lhs: Period, rhs: Period)
      modifies lhs
      ensures lhs.Fields() == Assigned(old(lhs.Fields()), old(rhs.Fields()), 1)
    {
      CompoundAssign(lhs, rhs, 1);
    }

    static method SubtractAssign(lhs: Period, rhs: Period)
      modifies lhs
      ensures lhs.Fields() == Assigned(old(lhs.Fields()), old(rhs.Fields()), -1)
    {
      CompoundAssign(lhs, rhs, -1);
    }

    /**
     * `+=` (`sign == 1`) and `-=` (`sign == -1`): `rhs` is a value, read
     * before `lhs` changes even when both name the same period, and each
     * field goes through its repairing setter.
     */
    static method CompoundAssign(lhs: Period, rhs: Period, sign: int)
      modifies lhs
      ensures lhs.Fields() == Assigned(old(lhs.Fields()), old(rhs.Fields()), sign)
    {
      var r := rhs.Fields();
      lhs.AddToProperty(Component.Year, sign * r.year);
      lhs.AddToProperty(Component.Month, sign * r.month);
      lhs.AddToProperty(Component.Day, sign * r.day);
      lhs.AddToProperty(Component.Hour, sign * r.hour);
      lhs.AddToProperty(Component.Minute, sign * r.minute);
      lhs.AddToProperty(Component.Second, sign * r.second);
      lhs.AddToProperty(Component.Nanosecond, sign * r.nano);
    }

    /** `period.field += amount`: the property's getter, then its setter. */
    method AddToProperty(field: Component, amount: int)
      requires IsPeriodField(field)
      modifies this
      ensures Fields() == AddToField(old(Fields()), field, amount)
    {
      match field
      case Year =>
        var value := Year() + amount;
        SetYear(value);
        AddToFieldIsAssigning(old(Fields()), Component.Year, amount, value);
      case Month =>
        var value := Month() + amount;
        SetMonth(value);
        AddToFieldIsAssigning(old(Fields()), Component.Month, amount, value);
      case Day =>
        var value := Day() + amount;
        SetDay(value);
        AddToFieldIsAssigning(old(Fields()), Component.Day, amount, value);
      case Hour =>
        var value := Hour() + amount;
        SetHour(value);
        AddToFieldIsAssigning(old(Fields()), Component.Hour, amount, value);
      case Minute =>
        var value := Minute() + amount;
        SetMinute(value);
        AddToFieldIsAssigning(old(Fields()), Component.Minute, amount, value);
      case Second =>
        var value := Second() + amount;
        SetSecond(value);
        AddToFieldIsAssigning(old(Fields()), Component.Second, amount, value);
      case Nanosecond =>
        var value := Nano() + amount;
        SetNano(value);
        AddToFieldIsAssigning(old(Fields()), Component.Nanosecond, amount, value);
    }
  }

  // ---------------------------------------------------------------------
  // `LocalDateTime` and `Period`

  /** `dateTime + period` (`sign == 1`) and `dateTime - period` (`sign == -1`). */
  method ShiftDateTime(lhs: LocalDateTimes.LocalDateTime, rhs: Period, sign: int) returns (dt: LocalDateTimes.LocalDateTime)
    modifies lhs, lhs.internalDate
    ensures lhs.internalDate == old(lhs.internalDate)
    ensures lhs.Value() == Settled(old(lhs.Value()))
    ensures fresh(dt) && fresh(dt.internalDate)
    ensures dt.Value() == Shifted(old(lhs.Value()), rhs.Fields(), sign)
  {
    ghost var v := lhs.Value();
    SettledIsStable(v);
    var y := lhs.Year();
    var m := lhs.Month();
    var d := lhs.Day();
    var h := lhs.Hour();
    var mi := lhs.Minute();
    var s := lhs.Second();
    var n := lhs.Nano();
    assert lhs.Value() == Settled(v);
    var r := rhs.Fields();
    dt := new LocalDateTimes.LocalDateTime(y + sign * r.year, m + sign * r.month, d + sign * r.day,
                                           h + sign * r.hour, mi + sign * r.minute, s + sign * r.second,
                                           n + sign * r.nano);
  }

  method AddToDateTime(lhs: LocalDateTimes.LocalDateTime, rhs: Period) returns (dt: LocalDateTimes.LocalDateTime)
    modifies lhs, lhs.internalDate
    ensures lhs.internalDate == old(lhs.internalDate)
    ensures lhs.Value() == Settled(old(lhs.Value()))
    ensures fresh(dt) && fresh(dt.internalDate)
    ensures dt.Value() == Shifted(old(lhs.Value()), rhs.Fields(), 1)
  {
    dt := ShiftDateTime(lhs, rhs, 1);
  }

  method SubtractFromDateTime(lhs: LocalDateTimes.LocalDateTime, rhs: Period) returns (dt: LocalDateTimes.LocalDateTime)
    modifies lhs, lhs.internalDate
    ensures lhs.internalDate == old(lhs.internalDate)
    ensures lhs.Value() == Settled(old(lhs.Value()))
    ensures fresh(dt) && fresh(dt.internalDate)
    ensures dt.Value() == Shifted(old(lhs.Value()), rhs.Fields(), -1)
  {
    dt := ShiftDateTime(lhs, rhs, -1);
  }

  /** `dateTime += period` (`sign == 1`) and `dateTime -= period` (`sign == -1`): a getter and a setter per field. */
  method ShiftDateTimeInPlace(lhs: LocalDateTimes.LocalDateTime, rhs: Period, sign: int)
    modifies lhs, lhs.internalDate
    ensures lhs.internalDate == old(lhs.internalDate)
    ensures lhs.Value() == ShiftedInPlace(old(lhs.Value()), rhs.Fields(), sign)
  {
    var r := rhs.Fields();
    AddToDateTimeProperty(lhs, Component.Year, sign * r.year);
    AddToDateTimeProperty(lhs, Component.Month, sign * r.month);
    AddToDateTimeProperty(lhs, Component.Day, sign * r.day);
    AddToDateTimeProperty(lhs, Component.Hour, sign * r.hour);
    AddToDateTimeProperty(lhs, Component.Minute, sign * r.minute);
    AddToDateTimeProperty(lhs, Component.Second, sign * r.second);
    AddToDateTimeProperty(lhs, Component.Nanosecond, sign * r.nano);
  }

  /** `dateTime.field += amount`: the property's getter, then its setter. */
  method AddToDateTimeProperty(lhs: LocalDateTimes.LocalDateTime, field: Component, amount: int)
    requires IsPeriodField(field)
    modifies lhs, lhs.internalDate
    ensures lhs.internalDate == old(lhs.internalDate)
    ensures lhs.Value() == AddToDateTimeField(old(lhs.Value()), field, amount)
  {
    ghost var v0 := lhs.Value();
    match field
    case Year =>
      var y := lhs.Year();
      ghost var v1 := lhs.Value();
      var value := y + amount;
      lhs.SetYear(value);
      DateStepIs(v0, v1, lhs.Value(), field, amount, value);
    case Month =>
      var m := lhs.Month();
      ghost var v1 := lhs.Value();
      var value := m + amount;
      lhs.SetMonth(value);
      DateStepIs(v0, v1, lhs.Value(), field, amount, value);
    case Day =>
      var d := lhs.Day();
      ghost var v1 := lhs.Value();
      var value := d + amount;
      lhs.SetDay(value);
      DateStepIs(v0, v1, lhs.Value(), field, amount, value);
    case Hour =>
      var h := lhs.Hour();
      ghost var v1 := lhs.Value();
      var value := h + amount;
      lhs.SetHour(value);
      TimeStepIs(v0, v1, lhs.Value(), field, amount, value);
    case Minute =>
      var mi := lhs.Minute();
      ghost var v1 := lhs.Value();
      var value := mi + amount;
      lhs.SetMinute(value);
      TimeStepIs(v0, v1, lhs.Value(), field, amount, value);
    case Second =>
      var s := lhs.Second();
      ghost var v1 := lhs.Value();
      var value := s + amount;
      lhs.SetSecond(value);
      TimeStepIs(v0, v1, lhs.Value(), field, amount, value);
    case Nanosecond =>
      var n := lhs.Nano();
      ghost var v1 := lhs.Value();
      var value := n + amount;
      lhs.SetNano(value);
      TimeStepIs(v0, v1, lhs.Value(), field, amount, value);
  }

  /** A date step is the settling getter, then the setter with the field read plus the amount. */
  lemma DateStepIs(v0: DateTime, v1: DateTime, v2: DateTime, field: Component, amount: int, value: int)
    requires field == Component.Year || field == Component.Month || field == Component.Day
    requires v1 == Settled(v0)
    requires field == Component.Year ==> value == v1.date.year + amount
    requires field == Component.Month ==> value == v1.date.month + amount
    requires field == Component.Day ==> value == v1.date.day + amount
    requires v2.time == Carried(v1).time
    requires field == Component.Year ==> v2.date == Normalized(Carried(v1).date).(year := value)
    requires field == Component.Month ==> v2.date == Normalized(Carried(v1).date).(month := value)
    requires field == Component.Day ==> v2.date == Normalized(Carried(v1).date).(day := value)
    ensures v2 == AddToDateTimeField(v0, field, amount)
  {
    SettledIsStable(v0);
  }

  /** A time step is the carrying getter, then the setter with the field read plus the amount. */
  lemma TimeStepIs(v0: DateTime, v1: DateTime, v2: DateTime, field: Component, amount: int, value: int)
    requires field == Component.Hour || field == Component.Minute || field == Component.Second || field == Component.Nanosecond
    requires v1 == Carried(v0)
    requires field == Component.Hour ==> value == v1.time.hour + amount && v2 == Carried(v1).(time := Carried(v1).time.(hour := value))
    requires field == Component.Minute ==> value == v1.time.minute + amount && v2 == Carried(v1).(time := Carried(v1).time.(minute := value))
    requires field == Component.Second ==> value == v1.time.second + amount && v2 == Carried(v1).(time := Carried(v1).time.(second := value))
    requires field == Component.Nanosecond ==> value == v1.time.nano + amount && v2 == Carried(v1).(time := Carried(v1).time.(nano := value))
    ensures v2 == AddToDateTimeField(v0, field, amount)
  {
    CarryIdempotent(v0);
  }

  method AddAssignToDateTime(lhs: LocalDateTimes.LocalDateTime, rhs: Period)
    modifies lhs, lhs.internalDate
    ensures lhs.internalDate == old(lhs.internalDate)
    ensures lhs.Value() == ShiftedInPlace(old(lhs.Value()), rhs.Fields(), 1)
  {
    ShiftDateTimeInPlace(lhs, rhs, 1);
  }

  method SubtractAssignFromDateTime(lhs: LocalDateTimes.LocalDateTime, rhs: Period)
    modifies lhs, lhs.internalDate
    ensures lhs.internalDate == old(lhs.internalDate)
    ensures lhs.Value() == ShiftedInPlace(old(lhs.Value()), rhs.Fields(), -1)
  {
    ShiftDateTimeInPlace(lhs, rhs, -1);
  }
}
