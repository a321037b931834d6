/**
 * `LocalDateTime`: a `LocalDate` object and a time of day.  The only
 * repair of its own is the hour carry; every getter and setter runs it
 * first and then goes through the date's own getters and setters, which
 * repair the date.  `plus`, `minus` and the operators do not carry.  The
 * meaning of each operation is a function of `DateTimes` or `LocalDates`.
 *
 * Two date-times can be made to share one date object (the `date` getter
 * hands it out and the setter stores what it is given); the comparisons and
 * `until` then carry twice into the same date, so they are specified for a
 * single date-time or for two that do not share their date.
 */
module LocalDateTimes {
  import opened Calendar
  import opened Dates
  import opened LocalDates
  import opened Times
  import DateTimes

  class LocalDateTime {
    var internalDate: LocalDate
    var internalTime: Time

    /** The stored date triple and time. */
    function Value(): DateTimes.DateTime
      reads this, internalDate
    {
      DateTimes.DateTime(internalDate.Triple(), internalTime)
    }

    // -------------------------------------------------------------------
    // Lifecycle

    /** `init(date:time:)` stores a copy of `date` made through its getters, which repairs `date` itself. */
    constructor OfParts(date: LocalDate, time: Time)
      modifies date
      ensures date.Triple() == Normalized(old(date.Triple()))
      ensures fresh(internalDate) && Value() == DateTimes.DateTime(date.Triple(), time)
    {
      internalDate := new LocalDate.Copy(date);
      internalTime := time;
    }

    /** `init(year:month:day:hour:minute:second:nanoOfSecond:)` stores every field as given. */
    constructor (year: int, month: int, day: int, hour: int, minute: int, second: int, nano: int)
      ensures fresh(internalDate)
      ensures Value() == DateTimes.DateTime(Date(year, month, day), Time(hour, minute, second, nano))
    {
      internalDate := new LocalDate(year, month, day);
      internalTime := Time(hour, minute, second, nano);
    }

    /** `init(epochDay:nanoOfDay:)`: the valid date with that epoch day and the time of that many nanoseconds. */
    constructor OfEpochDay(epochDay: int, nanoOfDay: int, ops: TimeOps)
      ensures fresh(internalDate)
      ensures IsValid(Value().date) && ToEpochDay(Value().date) == epochDay
      ensures Value().time == ops.ofNanoOfDay(nanoOfDay)
    {
      internalDate := new LocalDate.OfEpochDay(epochDay);
      internalTime := ops.ofNanoOfDay(nanoOfDay);
    }

    /** `init(_ date: LocalDateTime)` copies through the `date` and `time` getters, so it settles `other` first. */
    constructor Copy(other: LocalDateTime)
      modifies other, other.internalDate
      ensures other.internalDate == old(other.internalDate)
      ensures other.Value() == DateTimes.Settled(old(other.Value()))
      ensures fresh(internalDate) && Value() == other.Value()
    {
      var date := other.DatePart();
      internalDate := new LocalDate.Copy(date);
      var time := other.TimePart();
      internalTime := time;
    }

    /** `LocalDateTime.min`: the minimum date at `LocalTime.min`. */
    static method Min(ops: TimeOps) returns (dt: LocalDateTime)
      ensures fresh(dt) && fresh(dt.internalDate)
      ensures dt.Value() == DateTimes.DateTime(Date(MinYear, MinMonth, 1), ops.min)
    {
      var date := LocalDate.Min();
      assert IsValid(date.Triple());
      dt := new LocalDateTime.OfParts(date, ops.min);
    }

    /** `LocalDateTime.max`: the maximum date at `LocalTime.max`. */
    static method Max(ops: TimeOps) returns (dt: LocalDateTime)
      ensures fresh(dt) && fresh(dt.internalDate)
      ensures dt.Value() == DateTimes.DateTime(Date(MaxYear, MaxMonth, 31), ops.max)
    {
      var date := LocalDate.Max();
      assert IsValid(date.Triple());
      dt := new LocalDateTime.OfParts(date, ops.max);
    }

    // -------------------------------------------------------------------
    // The carry

    /** `normalize`: an hour of 24 or more moves whole days into the date's day. */
    method Normalize()
      modifies this, internalDate
      ensures internalDate == old(internalDate)
      ensures Value() == DateTimes.Carried(old(Value()))
    {
      if internalTime.hour >= HoursPerDay {
        var day := internalDate.Day();
        internalDate.SetDay(day + internalTime.hour / HoursPerDay);
        internalTime := internalTime.(hour := internalTime.hour % HoursPerDay);
      }
    }

    // -------------------------------------------------------------------
    // Getters and setters: each carries first

    /** The `date` getter hands out the stored date object itself. */
    method DatePart() returns (date: LocalDate)
      modifies this, internalDate
      ensures internalDate == old(internalDate) && date == internalDate
      ensures Value() == DateTimes.Carried(old(Value()))
    {
      Normalize();
      date := internalDate;
    }

    /** The `date` setter carries into the old date object and then stores the one it is given. */
    method SetDatePart(date: LocalDate)
      modifies this, internalDate
      ensures internalDate == date
      ensures old(internalDate).Triple() == DateTimes.Carried(old(Value())).date
      ensures internalTime == DateTimes.Carried(old(Value())).time
      ensures date != old(internalDate) ==> date.Triple() == old(date.Triple())
    {
      Normalize();
      internalDate := date;
    }

    method TimePart() returns (time: Time)
      modifies this, internalDate
      ensures internalDate == old(internalDate)
      ensures Value() == DateTimes.Carried(old(Value())) && time == internalTime
      ensures time.hour < HoursPerDay
    {
      Normalize();
      time := internalTime;
    }

    method SetTimePart(time: Time)
      modifies this, internalDate
      ensures internalDate == old(internalDate)
      ensures Value() == DateTimes.Carried(old(Value())).(time := time)
    {
      Normalize();
      internalTime := time;
    }

    method Year() returns (year: int)
      modifies this, internalDate
      ensures internalDate == old(internalDate)
      ensures Value() == DateTimes.Settled(old(Value())) && year == Value().date.year
    {
      Normalize();
      year := internalDate.Year();
    }

    method Month() returns (month: int)
      modifies this, internalDate
      ensures internalDate == old(internalDate)
      ensures Value() == DateTimes.Settled(old(Value())) && month == Value().date.month
    {
      Normalize();
      month := internalDate.Month();
    }

    method Day() returns (day: int)
      modifies this, internalDate
      ensures internalDate == old(internalDate)
      ensures Value() == DateTimes.Settled(old(Value())) && day == Value().date.day
    {
      Normalize();
      day := internalDate.Day();
    }

    method SetYear(year: int)
      modifies this, internalDate
      ensures internalDate == old(internalDate)
      ensures Value().time == DateTimes.Carried(old(Value())).time
      ensures Value().date == Normalized(DateTimes.Carried(old(Value())).date).(year := year)
    {
      Normalize();
      internalDate.SetYear(year);
    }

    method SetMonth(month: int)
      modifies this, internalDate
      ensures internalDate == old(internalDate)
      ensures Value().time == DateTimes.Carried(old(Value())).time
      ensures Value().date == Normalized(DateTimes.Carried(old(Value())).date).(month := month)
    {
      Normalize();
      internalDate.SetMonth(month);
    }

    method SetDay(day: int)
      modifies this, internalDate
      ensures internalDate == old(internalDate)
      ensures Value().time == DateTimes.Carried(old(Value())).time
      ensures Value().date == Normalized(DateTimes.Carried(old(Value())).date).(day := day)
    {
      Normalize();
      internalDate.SetDay(day);
    }

    method DayOfWeek() returns (weekday: int)
      modifies this, internalDate
      ensures internalDate == old(internalDate)
      ensures Value() == DateTimes.Settled(old(Value())) && weekday == Dates.DayOfWeek(Value().date)
    {
      Normalize();
      weekday := internalDate.DayOfWeek();
    }

    /** The `hour` getter reads the carried hour, which is below 24. */
    method Hour() returns (hour: int)
      modifies this, internalDate
      ensures internalDate == old(internalDate)
      ensures Value() == DateTimes.Carried(old(Value())) && hour == Value().time.hour
      ensures hour < HoursPerDay
    {
      Normalize();
      hour := internalTime.hour;
    }

    method Minute() returns (minute: int)
      modifies this, internalDate
      ensures internalDate == old(internalDate)
      ensures Value() == DateTimes.Carried(old(Value())) && minute == Value().time.minute
    {
      Normalize();
      minute := internalTime.minute;
    }

    method Second() returns (second: int)
      modifies this, internalDate
      ensures internalDate == old(internalDate)
      ensures Value() == DateTimes.Carried(old(Value())) && second == Value().time.second
    {
      Normalize();
      second := internalTime.second;
    }

    method Nano() returns (nano: int)
      modifies this, internalDate
      ensures internalDate == old(internalDate)
      ensures Value() == DateTimes.Carried(old(Value())) && nano == Value().time.nano
    {
      Normalize();
      nano := internalTime.nano;
    }

    /** The `hour` setter stores the hour as given, to be carried by the next read. */
    method SetHour(hour: int)
      modifies this, internalDate
      ensures internalDate == old(internalDate)
      ensures Value() == DateTimes.Carried(old(Value())).(time := DateTimes.Carried(old(Value())).time.(hour := hour))
    {
      Normalize();
      internalTime := internalTime.(hour := hour);
    }

    method SetMinute(minute: int)
      modifies this, internalDate
      ensures internalDate == old(internalDate)
      ensures Value() == DateTimes.Carried(old(Value())).(time := DateTimes.Carried(old(Value())).time.(minute := minute))
    {
      Normalize();
      internalTime := internalTime.(minute := minute);
    }

    method SetSecond(second: int)
      modifies this, internalDate
      ensures internalDate == old(internalDate)
      ensures Value() == DateTimes.Carried(old(Value())).(time := DateTimes.Carried(old(Value())).time.(second := second))
    {
      Normalize();
      internalTime := internalTime.(second := second);
    }

    method SetNano(nano: int)
      modifies this, internalDate
      ensures internalDate == old(internalDate)
      ensures Value() == DateTimes.Carried(old(Value())).(time := DateTimes.Carried(old(Value())).time.(nano := nano))
    {
      Normalize();
      internalTime := internalTime.(nano := nano);
    }

    method LengthOfMonth() returns (n: int)
      modifies this, internalDate
      ensures internalDate == old(internalDate)
      ensures Value() == DateTimes.Settled(old(Value()))
      ensures n == Calendar.LengthOfMonth(Value().date.year, Value().date.month)
    {
      Normalize();
      n := internalDate.LengthOfMonth();
    }

    method LengthOfYear() returns (n: int)
      modifies this, internalDate
      ensures internalDate == old(internalDate)
      ensures Value() == DateTimes.Settled(old(Value()))
      ensures n == Calendar.LengthOfYear(Value().date.year)
    {
      Normalize();
      n := internalDate.LengthOfYear();
    }

    method IsLeapYear() returns (leap: bool)
      modifies this, internalDate
      ensures internalDate == old(internalDate)
      ensures Value() == DateTimes.Settled(old(Value()))
      ensures leap == Calendar.IsLeapYear(Value().date.year)
    {
      Normalize();
      leap := internalDate.IsLeapYear();
    }

    // -------------------------------------------------------------------
    // with, plus, minus, range: time units go to the time, the rest to the date

    /**
     * `with(component:newValue:)` carries, then replaces a time field
     * through `LocalTime.with` and keeps the date, or replaces a date field
     * through `LocalDate.with` and keeps the time.
     */
    method With(component: Component, newValue: int, ops: TimeOps) returns (dt: LocalDateTime)
      requires IsTimeUnit(component) || component == Component.Year || component == Component.Month || component == Component.Day
      modifies this, internalDate
      ensures internalDate == old(internalDate)
      ensures fresh(dt) && fresh(dt.internalDate)
      ensures if IsTimeUnit(component) then
                && Value() == DateTimes.Settled(old(Value()))
                && dt.Value() == Value().(time := ops.withValue(Value().time, component, newValue))
              else
                && Value() == DateTimes.Settled(old(Value()))
                && dt.Value().time == Value().time
                && dt.Value().date == Normalized(if component == Component.Year then Value().date.(year := newValue)
                                                 else if component == Component.Month then Value().date.(month := newValue)
                                                 else Value().date.(day := newValue))
    {
      Normalize();
      if IsTimeUnit(component) {
        dt := new LocalDateTime.OfParts(internalDate, ops.withValue(internalTime, component, newValue));
      } else {
        var date := internalDate.With(component, newValue);
        dt := new LocalDateTime.OfParts(date, internalTime);
      }
    }

    /**
     * `plus(component:newValue:)` does not carry: a time unit goes to
     * `LocalTime.plus`, so the date part is only copied (which repairs the
     * stored date, never the hour), and a calendar unit goes to the stored
     * date's `plus`.
     */
    method Plus(component: Component, newValue: int, ops: TimeOps) returns (dt: LocalDateTime)
      requires IsTimeUnit(component) || component == Component.Year || component == Component.Month
               || component == Component.Weekday || component == Component.Day
      modifies internalDate
      ensures fresh(dt) && fresh(dt.internalDate)
      ensures if IsTimeUnit(component) then
                && internalDate.Triple() == Normalized(old(internalDate.Triple()))
                && dt.Value() == DateTimes.DateTime(internalDate.Triple(), ops.plus(internalTime, component, newValue))
              else
                && internalDate.Triple() == old(internalDate.Triple())
                && dt.Value() == DateTimes.DateTime(Normalized(Moved(Value().date, component, newValue)), internalTime)
    {
      if IsTimeUnit(component) {
        dt := new LocalDateTime.OfParts(internalDate, ops.plus(internalTime, component, newValue));
      } else {
        var date := internalDate.Plus(component, newValue);
        assert date.Triple() == Moved(internalDate.Triple(), component, newValue);
        dt := new LocalDateTime.OfParts(date, internalTime);
      }
    }

    /** `minus(component:newValue:)`: the same dispatch; on the date it is `plus` of the negated amount. */
    method Minus(component: Component, newValue: int, ops: TimeOps) returns (dt: LocalDateTime)
      requires IsTimeUnit(component) || component == Component.Year || component == Component.Month
               || component == Component.Weekday || component == Component.Day
      modifies internalDate
      ensures fresh(dt) && fresh(dt.internalDate)
      ensures if IsTimeUnit(component) then
                && internalDate.Triple() == Normalized(old(internalDate.Triple()))
                && dt.Value() == DateTimes.DateTime(internalDate.Triple(), ops.minus(internalTime, component, newValue))
              else
                && internalDate.Triple() == old(internalDate.Triple())
                && dt.Value() == DateTimes.DateTime(Normalized(Moved(Value().date, component, -newValue)), internalTime)
    {
      if IsTimeUnit(component) {
        dt := new LocalDateTime.OfParts(internalDate, ops.minus(internalTime, component, newValue));
      } else {
        var date := internalDate.Minus(component, newValue);
        assert date.Triple() == Moved(internalDate.Triple(), component, -newValue);
        dt := new LocalDateTime.OfParts(date, internalTime);
      }
    }

    /** `range`: carries, then asks the time part for time units and the date part otherwise. */
    method Range(component: Component, ops: TimeOps) returns (low: int, high: int)
      requires IsTimeUnit(component) || component == Component.Month || component == Component.Year
               || component == Component.WeekOfMonth || component == Component.Era
      modifies this, internalDate
      ensures internalDate == old(internalDate)
      ensures IsTimeUnit(component) ==> Value() == DateTimes.Carried(old(Value())) && (low, high) == ops.range(Value().time, component)
      ensures !IsTimeUnit(component) ==> Value() == DateTimes.Settled(old(Value())) && low == 1
      ensures component == Component.Month ==> high == Calendar.LengthOfMonth(Value().date.year, Value().date.month)
      ensures component == Component.Year ==> high == Calendar.LengthOfYear(Value().date.year)
      ensures component == Component.WeekOfMonth ==>
                high == if Value().date.month == 2 && !Calendar.IsLeapYear(Value().date.year) then 4 else 5
      ensures component == Component.Era ==> high == if Value().date.year <= 0 then MaxYear + 1 else MaxYear
    {
      Normalize();
      if IsTimeUnit(component) {
        var bounds := ops.range(internalTime, component);
        low, high := bounds.0, bounds.1;
      } else {
        low, high := internalDate.Range(component);
      }
    }

    // -------------------------------------------------------------------
    // until

    /**
     * `until(endDateTime:component:)`: both operands are carried, then a
     * time unit counts the day distance in that unit plus the time part's
     * own distance, and a calendar unit measures the dates to the shifted
     * end date.
     */
    method UntilUnit(endDateTime: LocalDateTime, component: Component, ops: TimeOps) returns (amount: int)
      requires IsTimeUnit(component) || IsDateUnit(component)
      requires this == endDateTime || internalDate != endDateTime.internalDate
      modifies this, internalDate, endDateTime, endDateTime.internalDate
      ensures internalDate == old(internalDate) && Value() == DateTimes.Settled(old(Value()))
      ensures endDateTime.internalDate == old(endDateTime.internalDate)
      ensures endDateTime.Value() == DateTimes.Settled(old(endDateTime.Value()))
      ensures IsTimeUnit(component) ==> amount == DateTimes.UntilTime(old(Value()), old(endDateTime.Value()), component, ops)
      ensures IsDateUnit(component) ==> amount == DateTimes.UntilDate(old(Value()), old(endDateTime.Value()), component, ops)
    {
      ghost var s, e := Value(), endDateTime.Value();
      Normalize();
      endDateTime.Normalize();
      DateTimes.CarryIdempotent(s);
      ghost var cs, ce := Value(), endDateTime.Value();
      assert cs == DateTimes.Carried(s) && ce == DateTimes.Carried(e);
      if IsTimeUnit(component) {
        amount := UntilTime(endDateTime, component, ops);
      } else {
        amount := UntilDate(endDateTime, component, ops);
      }
      DateTimes.UntilOfCarried(s, e, component, ops, cs, ce);
    }

    /** The time-unit half of `until`, on operands already carried. */
    method UntilTime(endDateTime: LocalDateTime, component: Component, ops: TimeOps) returns (amount: int)
      requires IsTimeUnit(component)
      requires this == endDateTime || internalDate != endDateTime.internalDate
      requires internalTime.hour < HoursPerDay && endDateTime.internalTime.hour < HoursPerDay
      modifies internalDate, endDateTime.internalDate
      ensures internalDate.Triple() == Normalized(old(internalDate.Triple()))
      ensures endDateTime.internalDate.Triple() == Normalized(old(endDateTime.internalDate.Triple()))
      ensures amount == DateTimes.UntilTime(old(Value()), old(endDateTime.Value()), component, ops)
    {
      var timePart := ops.until(internalTime, endDateTime.internalTime, component);
      amount := internalDate.UntilUnit(endDateTime.internalDate, Component.Day);
      if amount == 0 {
        amount := timePart;
      } else {
        amount := amount * UnitsPerDay(component) + timePart;
      }
    }

    /** The calendar-unit half of `until`, on operands already carried. */
    method UntilDate(endDateTime: LocalDateTime, component: Component, ops: TimeOps) returns (amount: int)
      requires IsDateUnit(component)
      requires this == endDateTime || internalDate != endDateTime.internalDate
      requires internalTime.hour < HoursPerDay && endDateTime.internalTime.hour < HoursPerDay
      modifies internalDate, endDateTime.internalDate
      ensures internalDate.Triple() == Normalized(old(internalDate.Triple()))
      ensures endDateTime.internalDate.Triple() == Normalized(old(endDateTime.internalDate.Triple()))
      ensures amount == DateTimes.UntilDate(old(Value()), old(endDateTime.Value()), component, ops)
    {
      ghost var a, b := Value(), endDateTime.Value();
      var endDate := endDateTime.internalDate;
      var less := LocalDate.Less(endDate, internalDate);
      ghost var sd, n := internalDate.Triple(), endDate.Triple();
      ghost var unshifted := DateTimes.ShiftedEnd(a.date, b.date, a.time, b.time, ops);
      ghost var shifted := Normalized(unshifted);
      if less && ops.less(endDateTime.internalTime, internalTime) {
        endDate := endDate.MinusDay(1);
        DateTimes.ShiftedBack(a.date, b.date, a.time, b.time, ops, n);
        assert endDate.Triple() == unshifted;
      } else {
        var greater := LocalDate.Greater(endDate, internalDate);
        DateTimes.CompareRepaired(b.date, a.date, n, sd);
        if greater && ops.greater(endDateTime.internalTime, internalTime) {
          endDate := endDate.PlusDay(1);
          DateTimes.ShiftedForward(a.date, b.date, a.time, b.time, ops, n);
          assert endDate.Triple() == unshifted;
        } else {
          DateTimes.NotShifted(a.date, b.date, a.time, b.time, ops);
          assert endDate.Triple() == n == shifted;
        }
      }
      amount := internalDate.UntilUnit(endDate, component);
      DateTimes.UntilDateIs(a, b, component, ops, sd, shifted);
    }

    // -------------------------------------------------------------------
    // Comparisons: each carries both operands first

    static method Less(lhs: LocalDateTime, rhs: LocalDateTime, ops: TimeOps) returns (less: bool)
      requires lhs == rhs || lhs.internalDate != rhs.internalDate
      modifies lhs, lhs.internalDate, rhs, rhs.internalDate
      ensures lhs.internalDate == old(lhs.internalDate) && lhs.Value() == DateTimes.Settled(old(lhs.Value()))
      ensures rhs.internalDate == old(rhs.internalDate) && rhs.Value() == DateTimes.Settled(old(rhs.Value()))
      ensures less == DateTimes.Less(old(lhs.Value()), old(rhs.Value()), ops)
    {
      lhs.Normalize();
      rhs.Normalize();
      var dateLess := LocalDate.Less(lhs.internalDate, rhs.internalDate);
      if dateLess {
        return true;
      }
      less := ops.less(lhs.internalTime, rhs.internalTime);
    }

    static method Greater(lhs: LocalDateTime, rhs: LocalDateTime, ops: TimeOps) returns (greater: bool)
      requires lhs == rhs || lhs.internalDate != rhs.internalDate
      modifies lhs, lhs.internalDate, rhs, rhs.internalDate
      ensures lhs.internalDate == old(lhs.internalDate) && lhs.Value() == DateTimes.Settled(old(lhs.Value()))
      ensures rhs.internalDate == old(rhs.internalDate) && rhs.Value() == DateTimes.Settled(old(rhs.Value()))
      ensures greater == DateTimes.Greater(old(lhs.Value()), old(rhs.Value()), ops)
    {
      lhs.Normalize();
      rhs.Normalize();
      var dateGreater := LocalDate.Greater(lhs.internalDate, rhs.internalDate);
      if dateGreater {
        return true;
      }
      greater := ops.greater(lhs.internalTime, rhs.internalTime);
    }

    /** `<=` is not `>`. */
    static method LessOrEqual(lhs: LocalDateTime, rhs: LocalDateTime, ops: TimeOps) returns (b: bool)
      requires lhs == rhs || lhs.internalDate != rhs.internalDate
      modifies lhs, lhs.internalDate, rhs, rhs.internalDate
      ensures lhs.internalDate == old(lhs.internalDate) && lhs.Value() == DateTimes.Settled(old(lhs.Value()))
      ensures rhs.internalDate == old(rhs.internalDate) && rhs.Value() == DateTimes.Settled(old(rhs.Value()))
      ensures b == !DateTimes.Greater(old(lhs.Value()), old(rhs.Value()), ops)
    {
      var greater := Greater(lhs, rhs, ops);
      b := !greater;
    }

    /** `>=` is not `<`. */
    static method GreaterOrEqual(lhs: LocalDateTime, rhs: LocalDateTime, ops: TimeOps) returns (b: bool)
      requires lhs == rhs || lhs.internalDate != rhs.internalDate
      modifies lhs, lhs.internalDate, rhs, rhs.internalDate
      ensures lhs.internalDate == old(lhs.internalDate) && lhs.Value() == DateTimes.Settled(old(lhs.Value()))
      ensures rhs.internalDate == old(rhs.internalDate) && rhs.Value() == DateTimes.Settled(old(rhs.Value()))
      ensures b == !DateTimes.Less(old(lhs.Value()), old(rhs.Value()), ops)
    {
      var less := Less(lhs, rhs, ops);
      b := !less;
    }

    static method Equal(lhs: LocalDateTime, rhs: LocalDateTime, ops: TimeOps) returns (equal: bool)
      requires lhs == rhs || lhs.internalDate != rhs.internalDate
      modifies lhs, lhs.internalDate, rhs, rhs.internalDate
      ensures lhs.internalDate == old(lhs.internalDate) && lhs.Value() == DateTimes.Settled(old(lhs.Value()))
      ensures rhs.internalDate == old(rhs.internalDate) && rhs.Value() == DateTimes.Settled(old(rhs.Value()))
      ensures equal == DateTimes.Equal(old(lhs.Value()), old(rhs.Value()), ops)
    {
      lhs.Normalize();
      rhs.Normalize();
      var dateEqual := LocalDate.Equal(lhs.internalDate, rhs.internalDate);
      equal := dateEqual && ops.equal(lhs.internalTime, rhs.internalTime);
    }

    // -------------------------------------------------------------------
    // Operators: part by part, without carrying

    /** `lhs + rhs`: the dates' `+` and the times' `+`, stored in a new date-time. */
    static method Add(lhs: LocalDateTime, rhs: LocalDateTime, ops: TimeOps) returns (dt: LocalDateTime)
      modifies lhs.internalDate, rhs.internalDate
      ensures lhs.internalDate.Triple() == Normalized(old(lhs.internalDate.Triple()))
      ensures rhs.internalDate.Triple() == Normalized(old(rhs.internalDate.Triple()))
      ensures fresh(dt) && fresh(dt.internalDate)
      ensures dt.Value() == DateTimes.DateTime(Normalized(Combined(old(lhs.Value().date), old(rhs.Value().date), 1)),
                                               ops.add(lhs.internalTime, rhs.internalTime))
    {
      var date := LocalDate.Add(lhs.internalDate, rhs.internalDate);
      dt := new LocalDateTime.OfParts(date, ops.add(lhs.internalTime, rhs.internalTime));
    }

    /** `lhs - rhs`: the dates' `-` and the times' `-`. */
    static method Subtract(lhs: LocalDateTime, rhs: LocalDateTime, ops: TimeOps) returns (dt: LocalDateTime)
      modifies lhs.internalDate, rhs.internalDate
      ensures lhs.internalDate.Triple() == Normalized(old(lhs.internalDate.Triple()))
      ensures rhs.internalDate.Triple() == Normalized(old(rhs.internalDate.Triple()))
      ensures fresh(dt) && fresh(dt.internalDate)
      ensures dt.Value() == DateTimes.DateTime(Normalized(Combined(old(lhs.Value().date), old(rhs.Value().date), -1)),
                                               ops.subtract(lhs.internalTime, rhs.internalTime))
    {
      var date := LocalDate.Subtract(lhs.internalDate, rhs.internalDate);
      dt := new LocalDateTime.OfParts(date, ops.subtract(lhs.internalTime, rhs.internalTime));
    }

    /** `lhs += rhs`: the date's `+=` on the stored date, then the time's `+=`. */
    static method AddAssign(lhs: LocalDateTime, rhs: LocalDateTime, ops: TimeOps)
      modifies lhs, lhs.internalDate, rhs.internalDate
      ensures lhs.internalDate == old(lhs.internalDate)
      ensures lhs.internalDate != rhs.internalDate ==>
                lhs.Value().date == Assigned(old(lhs.Value().date), old(rhs.Value().date), 1)
      ensures lhs.internalDate == rhs.internalDate ==> lhs.Value().date == SelfAssigned(old(lhs.Value().date), 1)
      ensures lhs.internalDate != rhs.internalDate ==> rhs.internalDate.Triple() == Normalized(old(rhs.internalDate.Triple()))
      ensures lhs.internalTime == ops.addAssign(old(lhs.internalTime), old(rhs.internalTime))
    {
      LocalDate.AddAssign(lhs.internalDate, rhs.internalDate);
      lhs.internalTime := ops.addAssign(lhs.internalTime, rhs.internalTime);
    }

    /** `lhs -= rhs`. */
    static method SubtractAssign(lhs: LocalDateTime, rhs: LocalDateTime, ops: TimeOps)
      modifies lhs, lhs.internalDate, rhs.internalDate
      ensures lhs.internalDate == old(lhs.internalDate)
      ensures lhs.internalDate != rhs.internalDate ==>
                lhs.Value().date == Assigned(old(lhs.Value().date), old(rhs.Value().date), -1)
      ensures lhs.internalDate == rhs.internalDate ==> lhs.Value().date == SelfAssigned(old(lhs.Value().date), -1)
      ensures lhs.internalDate != rhs.internalDate ==> rhs.internalDate.Triple() == Normalized(old(rhs.internalDate.Triple()))
      ensures lhs.internalTime == ops.subtractAssign(old(lhs.internalTime), old(rhs.internalTime))
    {
      LocalDate.SubtractAssign(lhs.internalDate, rhs.internalDate);
      lhs.internalTime := ops.subtractAssign(lhs.internalTime, rhs.internalTime);
    }

    /** `lhs + date`: only the date part changes, by the dates' `+`. */
    static method AddDate(lhs: LocalDateTime, rhs: LocalDate) returns (dt: LocalDateTime)
      modifies lhs.internalDate, rhs
      ensures lhs.internalDate.Triple() == Normalized(old(lhs.internalDate.Triple()))
      ensures rhs.Triple() == Normalized(old(rhs.Triple()))
      ensures fresh(dt) && fresh(dt.internalDate)
      ensures dt.Value() == DateTimes.DateTime(Normalized(Combined(old(lhs.Value().date), old(rhs.Triple()), 1)), lhs.internalTime)
    {
      var date := LocalDate.Add(lhs.internalDate, rhs);
      dt := new LocalDateTime.OfParts(date, lhs.internalTime);
    }

    static method SubtractDate(lhs: LocalDateTime, rhs: LocalDate) returns (dt: LocalDateTime)
      modifies lhs.internalDate, rhs
      ensures lhs.internalDate.Triple() == Normalized(old(lhs.internalDate.Triple()))
      ensures rhs.Triple() == Normalized(old(rhs.Triple()))
      ensures fresh(dt) && fresh(dt.internalDate)
      ensures dt.Value() == DateTimes.DateTime(Normalized(Combined(old(lhs.Value().date), old(rhs.Triple()), -1)), lhs.internalTime)
    {
      var date := LocalDate.Subtract(lhs.internalDate, rhs);
      dt := new LocalDateTime.OfParts(date, lhs.internalTime);
    }

    /** `lhs += date`: the stored date's `+=`; the time is untouched. */
    static method AddAssignDate(lhs: LocalDateTime, rhs: LocalDate)
      modifies lhs.internalDate, rhs
      ensures lhs.internalDate != rhs ==> lhs.internalDate.Triple() == Assigned(old(lhs.internalDate.Triple()), old(rhs.Triple()), 1)
      ensures lhs.internalDate == rhs ==> rhs.Triple() == SelfAssigned(old(rhs.Triple()), 1)
      ensures lhs.internalDate != rhs ==> rhs.Triple() == Normalized(old(rhs.Triple()))
    {
      LocalDate.AddAssign(lhs.internalDate, rhs);
    }

    static method SubtractAssignDate(lhs: LocalDateTime, rhs: LocalDate)
      modifies lhs.internalDate, rhs
      ensures lhs.internalDate != rhs ==> lhs.internalDate.Triple() == Assigned(old(lhs.internalDate.Triple()), old(rhs.Triple()), -1)
      ensures lhs.internalDate == rhs ==> rhs.Triple() == SelfAssigned(old(rhs.Triple()), -1)
      ensures lhs.internalDate != rhs ==> rhs.Triple() == Normalized(old(rhs.Triple()))
    {
      LocalDate.SubtractAssign(lhs.internalDate, rhs);
    }

    /** `lhs + time`: only the time part changes; the date is copied, which repairs the stored one. */
    static method AddTime(lhs: LocalDateTime, rhs: Time, ops: TimeOps) returns (dt: LocalDateTime)
      modifies lhs.internalDate
      ensures lhs.internalDate.Triple() == Normalized(old(lhs.internalDate.Triple()))
      ensures fresh(dt) && fresh(dt.internalDate)
      ensures dt.Value() == DateTimes.DateTime(lhs.internalDate.Triple(), ops.add(lhs.internalTime, rhs))
    {
      dt := new LocalDateTime.OfParts(lhs.internalDate, ops.add(lhs.internalTime, rhs));
    }

    static method SubtractTime(lhs: LocalDateTime, rhs: Time, ops: TimeOps) returns (dt: LocalDateTime)
      modifies lhs.internalDate
      ensures lhs.internalDate.Triple() == Normalized(old(lhs.internalDate.Triple()))
      ensures fresh(dt) && fresh(dt.internalDate)
      ensures dt.Value() == DateTimes.DateTime(lhs.internalDate.Triple(), ops.subtract(lhs.internalTime, rhs))
    {
      dt := new LocalDateTime.OfParts(lhs.internalDate, ops.subtract(lhs.internalTime, rhs));
    }

    /** `lhs += time`: only the stored time changes. */
    static method AddAssignTime(lhs: LocalDateTime, rhs: Time, ops: TimeOps)
      modifies lhs
      ensures lhs.internalDate == old(lhs.internalDate)
      ensures lhs.internalTime == ops.addAssign(old(lhs.internalTime), rhs)
    {
      lhs.internalTime := ops.addAssign(lhs.internalTime, rhs);
    }

    static method SubtractAssignTime(lhs: LocalDateTime, rhs: Time, ops: TimeOps)
      modifies lhs
      ensures lhs.internalDate == old(lhs.internalDate)
      ensures lhs.internalTime == ops.subtractAssign(old(lhs.internalTime), rhs)
    {
      lhs.internalTime := ops.subtractAssign(lhs.internalTime, rhs);
    }
  }

  /** The stored date `LocalDate.plus` builds for a calendar unit: one stored field moved, nothing repaired. */
  function Moved(t: Date, component: Component, amount: int): Date
  {
    if component == Component.Year then t.(year := t.year + amount)
    else if component == Component.Month then t.(month := t.month + amount)
    else if component == Component.Weekday then t.(day := t.day + amount * 7)
    else t.(day := t.day + amount)
  }
}
