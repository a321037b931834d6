/**
 * The value-level meaning of `LocalDateTime`: its one cross-unit carry
 * (`normalize`), the two kinds of `until`, and the comparison operators.
 * A date-time value is the stored date triple and the stored time record.
 */
module DateTimes {
  import opened Arith
  import opened Calendar
  import opened Dates
  import opened LocalDates
  import opened Times
  import EpochDays
  import DateLaws

  datatype DateTime = DateTime(date: Date, time: Time)

  // ---------------------------------------------------------------------
  // The carry

  /**
   * `normalize`: an hour of 24 or more moves whole days into the date's
   * day (through the date's getter and setter, so the date is repaired
   * first) and keeps the rest of the hour.  A smaller hour, negative ones
   * included, leaves everything as stored.
   */
  function Carried(dt: DateTime): DateTime
  {
    if dt.time.hour >= HoursPerDay then
      DateTime(AddToField(dt.date, Component.Day, dt.time.hour / HoursPerDay),
               dt.time.(hour := dt.time.hour % HoursPerDay))
    else dt
  }

  /** The carry moves hours into days and back without losing any, and touches nothing else. */
  lemma CarryKeepsHours(dt: DateTime)
    ensures var r := Carried(dt);
            if dt.time.hour >= HoursPerDay then
              && r.date.(day := 0) == Normalized(dt.date).(day := 0)
              && r.date.day * HoursPerDay + r.time.hour == Normalized(dt.date).day * HoursPerDay + dt.time.hour
              && 0 <= r.time.hour < HoursPerDay
              && r.time.(hour := 0) == dt.time.(hour := 0)
            else r == dt
  {
  }

  /** Carrying twice is carrying once. */
  lemma CarryIdempotent(dt: DateTime)
    ensures Carried(Carried(dt)) == Carried(dt)
  {
  }

  /** For a date in a year from 0 on, the carry keeps the instant: epoch day times 24 plus the hour. */
  lemma CarryKeepsInstant(dt: DateTime)
    requires 0 <= Normalized(dt.date).year
    ensures ToEpochDay(Normalized(Carried(dt).date)) * HoursPerDay + Carried(dt).time.hour
            == ToEpochDay(Normalized(dt.date)) * HoursPerDay + dt.time.hour
  {
    var h := dt.time.hour;
    if h >= HoursPerDay {
      var n, q := Normalized(dt.date), h / HoursPerDay;
      var c := Carried(dt);
      assert c.date == n.(day := n.day + q) && c.time.hour == h % HoursPerDay;
      DateLaws.PlusDaysEpochDay(n, q);
      assert ToEpochDay(Normalized(c.date)) == ToEpochDay(n) + q;
    }
  }

  /**
   * What every getter and setter of a date-time leaves stored: the carry,
   * then the date part repaired by its own getter.
   */
  function Settled(dt: DateTime): DateTime
  {
    var c := Carried(dt);
    DateTime(Normalized(c.date), c.time)
  }

  /** A settled date-time has a valid date and an hour below 24, and settling again changes nothing. */
  lemma SettledIsStable(dt: DateTime)
    ensures IsValid(Settled(dt).date) && Settled(dt).time.hour < HoursPerDay
    ensures Carried(Settled(dt)) == Settled(dt) && Settled(Settled(dt)) == Settled(dt)
  {
  }

  /** 2024-01-31 at hour 25 reads back as 2024-02-01 at hour 1. */
  lemma CarryReadsBack()
    ensures Settled(DateTime(Date(2024, 1, 31), Time(25, 0, 0, 0))) == DateTime(Date(2024, 2, 1), Time(1, 0, 0, 0))
  {
    assert IsValid(Date(2024, 1, 31));
    DateLaws.PlusOneDayIsSucc(Date(2024, 1, 31));
  }

  // ---------------------------------------------------------------------
  // `until(endDateTime:component:)`

  /**
   * For hours, minutes, seconds and nanoseconds, after carrying both
   * operands: the time part's own distance, plus the day distance of the
   * repaired dates scaled to the unit unless that distance is zero.
   */
  function UntilTime(s: DateTime, e: DateTime, unit: Component, ops: TimeOps): int
    requires IsTimeUnit(unit)
  {
    var a, b := Carried(s), Carried(e);
    var timePart := ops.until(a.time, b.time, unit);
    var amount := DayUntil(Normalized(a.date), Normalized(b.date));
    if amount == 0 then timePart else amount * UnitsPerDay(unit) + timePart
  }

  /** The zero-day guard changes nothing: the distance is always days scaled plus the time part. */
  lemma UntilTimeCounts(s: DateTime, e: DateTime, unit: Component, ops: TimeOps)
    requires IsTimeUnit(unit)
    ensures var a, b := Carried(s), Carried(e);
            UntilTime(s, e, unit, ops)
            == DayUntil(Normalized(a.date), Normalized(b.date)) * UnitsPerDay(unit) + ops.until(a.time, b.time, unit)
  {
    var a, b := Carried(s), Carried(e);
    var amount := DayUntil(Normalized(a.date), Normalized(b.date));
    if amount == 0 {
      assert amount * UnitsPerDay(unit) == 0;
    }
  }

  /**
   * The end date `until` measures to for calendar units: one day earlier
   * when the end date is `<` the start and the end time is `<` the start
   * time, one day later when both are `>`, else the end date itself.
   */
  function ShiftedEnd(sd: Date, ed: Date, st: Time, et: Time, ops: TimeOps): Date
  {
    if Dates.Less(ed, sd) && ops.less(et, st) then Normalized(ed).(day := Normalized(ed).day - 1)
    else if Dates.Greater(ed, sd) && ops.greater(et, st) then Normalized(ed).(day := Normalized(ed).day + 1)
    else ed
  }

  /** For days, weeks, months and years: `LocalDate.until` from the start date to the shifted end date. */
  function UntilDate(s: DateTime, e: DateTime, unit: Component, ops: TimeOps): int
    requires IsDateUnit(unit)
  {
    var a, b := Carried(s), Carried(e);
    UntilUnit(Normalized(a.date), Normalized(ShiftedEnd(a.date, b.date, a.time, b.time, ops)), unit)
  }

  // The branches of `ShiftedEnd` and the unfolding of `UntilDate`, one lemma each, so that
  // `LocalDateTime.UntilDate` need not unfold them.

  lemma ShiftedBack(sd: Date, ed: Date, st: Time, et: Time, ops: TimeOps, n: Date)
    requires n == Normalized(ed) && Dates.Less(ed, sd) && ops.less(et, st)
    ensures ShiftedEnd(sd, ed, st, et, ops) == n.(day := n.day - 1)
  {
  }

  lemma ShiftedForward(sd: Date, ed: Date, st: Time, et: Time, ops: TimeOps, n: Date)
    requires n == Normalized(ed) && !(Dates.Less(ed, sd) && ops.less(et, st))
    requires Dates.Greater(ed, sd) && ops.greater(et, st)
    ensures ShiftedEnd(sd, ed, st, et, ops) == n.(day := n.day + 1)
  {
  }

  lemma NotShifted(sd: Date, ed: Date, st: Time, et: Time, ops: TimeOps)
    requires !(Dates.Less(ed, sd) && ops.less(et, st)) && !(Dates.Greater(ed, sd) && ops.greater(et, st))
    ensures ShiftedEnd(sd, ed, st, et, ops) == ed
  {
  }

  /** Comparing repaired dates is comparing the dates. */
  lemma CompareRepaired(a: Date, b: Date, na: Date, nb: Date)
    requires na == Normalized(a) && nb == Normalized(b)
    ensures Dates.Less(na, nb) == Dates.Less(a, b) && Dates.Greater(na, nb) == Dates.Greater(a, b)
  {
  }

  lemma UntilDateIs(s: DateTime, e: DateTime, unit: Component, ops: TimeOps, sd: Date, shifted: Date)
    requires IsDateUnit(unit)
    requires s.time.hour < HoursPerDay && e.time.hour < HoursPerDay
    requires sd == Normalized(s.date) && shifted == Normalized(ShiftedEnd(s.date, e.date, s.time, e.time, ops))
    ensures UntilDate(s, e, unit, ops) == UntilUnit(sd, shifted, unit)
  {
  }

  /** Both kinds of `until` carry their operands first, so operands already carried give the same answer. */
  lemma UntilOfCarried(s: DateTime, e: DateTime, unit: Component, ops: TimeOps, cs: DateTime, ce: DateTime)
    requires IsTimeUnit(unit) || IsDateUnit(unit)
    requires cs == Carried(s) && ce == Carried(e)
    ensures IsTimeUnit(unit) ==> UntilTime(cs, ce, unit, ops) == UntilTime(s, e, unit, ops)
    ensures IsDateUnit(unit) ==> UntilDate(cs, ce, unit, ops) == UntilDate(s, e, unit, ops)
  {
    CarryIdempotent(s);
    CarryIdempotent(e);
  }

  /** When the two repaired dates agree nothing is shifted, so every calendar distance is zero. */
  lemma UntilDateSameDay(s: DateTime, e: DateTime, unit: Component, ops: TimeOps)
    requires IsDateUnit(unit)
    requires Normalized(Carried(s).date) == Normalized(Carried(e).date)
    ensures UntilDate(s, e, unit, ops) == 0
  {
    var a, b := Carried(s), Carried(e);
    assert !Dates.Less(b.date, a.date) && !Dates.Greater(b.date, a.date);
    assert ShiftedEnd(a.date, b.date, a.time, b.time, ops) == b.date;
    DateLaws.UntilSelf(Normalized(a.date), unit);
  }

  /**
   * The shift fires when date and time move the same way: from 2024-01-01
   * 10:00 to 2024-01-02 11:00, one day and one hour apart, `until` in days
   * answers 2; from 2024-01-01 10:00 to 2024-01-02 09:00, 23 hours apart, it
   * answers 1.  Only the time ordering is assumed: 11:00 after 10:00, 09:00
   * not after 10:00.
   */
  lemma UntilShiftAsWritten(ops: TimeOps)
    requires ops.greater(Time(11, 0, 0, 0), Time(10, 0, 0, 0))
    requires !ops.greater(Time(9, 0, 0, 0), Time(10, 0, 0, 0))
    ensures UntilDate(DateTime(Date(2024, 1, 1), Time(10, 0, 0, 0)), DateTime(Date(2024, 1, 2), Time(11, 0, 0, 0)),
                      Component.Day, ops) == 2
    ensures UntilDate(DateTime(Date(2024, 1, 1), Time(10, 0, 0, 0)), DateTime(Date(2024, 1, 2), Time(9, 0, 0, 0)),
                      Component.Day, ops) == 1
  {
    var s, e := Date(2024, 1, 1), Date(2024, 1, 2);
    assert IsValid(s) && IsValid(e) && IsValid(Date(2024, 1, 3));
    assert !Dates.Less(e, s) && Dates.Greater(e, s);
    assert ShiftedEnd(s, e, Time(10, 0, 0, 0), Time(11, 0, 0, 0), ops) == Date(2024, 1, 3);
    assert ShiftedEnd(s, e, Time(10, 0, 0, 0), Time(9, 0, 0, 0), ops) == e;
    EpochDays.ToEpochDayCounts(Date(2024, 1, 3));
    EpochDays.ToEpochDayCounts(e);
    EpochDays.ToEpochDayCounts(s);
  }

  // ---------------------------------------------------------------------
  // Comparison operators

  /** `<`: the carried dates compare with `LocalDate`'s `<`, else the times with `LocalTime`'s. */
  predicate Less(l: DateTime, r: DateTime, ops: TimeOps)
  {
    var a, b := Carried(l), Carried(r);
    Dates.Less(a.date, b.date) || ops.less(a.time, b.time)
  }

  /** `>`: the same with `>`. */
  predicate Greater(l: DateTime, r: DateTime, ops: TimeOps)
  {
    var a, b := Carried(l), Carried(r);
    Dates.Greater(a.date, b.date) || ops.greater(a.time, b.time)
  }

  /** `==`: the carried dates are `==` and the times are `==`. */
  predicate Equal(l: DateTime, r: DateTime, ops: TimeOps)
  {
    var a, b := Carried(l), Carried(r);
    Dates.Equal(a.date, b.date) && ops.equal(a.time, b.time)
  }

  /**
   * The comparisons see through the repair: comparing the settled values,
   * which is what the operands hold after any getter or comparison, gives
   * the answers that comparing the stored values gives.
   */
  lemma CompareSettled(l: DateTime, r: DateTime, ops: TimeOps)
    ensures Less(Settled(l), Settled(r), ops) == Less(l, r, ops)
    ensures Greater(Settled(l), Settled(r), ops) == Greater(l, r, ops)
    ensures Equal(Settled(l), Settled(r), ops) == Equal(l, r, ops)
  {
    SettledIsStable(l);
    SettledIsStable(r);
    var a, b := Carried(l), Carried(r);
    CompareRepaired(a.date, b.date, Normalized(a.date), Normalized(b.date));
    DateLaws.NormalizedIdempotent(a.date);
    DateLaws.NormalizedIdempotent(b.date);
  }

  /** A date-time stored as 2024-01-31 at hour 25 is `==` to 2024-02-01 at hour 1 when the times are. */
  lemma EqualAfterCarry(ops: TimeOps)
    requires ops.equal(Time(1, 0, 0, 0), Time(1, 0, 0, 0))
    ensures Equal(DateTime(Date(2024, 1, 31), Time(25, 0, 0, 0)), DateTime(Date(2024, 2, 1), Time(1, 0, 0, 0)), ops)
  {
    CarryReadsBack();
    assert IsValid(Date(2024, 2, 1));
  }
}
