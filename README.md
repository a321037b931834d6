# AnyDate in Dafny

This project models the date core of the Swift library AnyDate and proves
properties of the model. The core has three types:

- **`LocalDate`** is a class holding a raw year, month and day. It repairs
  itself lazily. Every getter first calls `normalize()`, which leaves a valid
  triple alone. Any other triple is first folded through its proleptic month
  and then sent through `init(epochDay:)`. Setters write the raw field after
  that repair.
- **`LocalDateTime`** is a class holding a `LocalDate` reference and a
  `LocalTime`. Its `normalize()` carries whole days out of an hour
  field of 24 or more into the date's day field.
- **`Period`** is a struct holding seven signed fields. It repairs itself on
  every write. It carries nanoseconds into seconds, seconds into minutes,
  minutes into hours and hours into days, all under truncating division. It
  then folds the calendar part through `LocalDate(year, month + 1, day + 1)`.

The model follows the code's own steps. `Int`
arithmetic is unbounded, and Swift's truncating `/` and `%` are written out.

## Modules

| module | file | what it holds |
|---|---|---|
| `Arith` | `arith.dfy` | `TDiv` and `TMod`, which are Swift's `/` and `%` on `Int`, truncating toward zero, plus their laws. |
| `Calendar` | `calendar.dfy` | The `Date` triple and the constants. Also the leap-year rule, month and year lengths, `isValid`, `toEpochDay`, and `init(epochDay:)` as `FromEpochDay`. |
| `EpochDays` | `epoch.dfy` | The proof that `FromEpochDay` inverts `ToEpochDay` for every integer. Also that `ToEpochDay` counts days of the proleptic Gregorian calendar from 1970-01-01. |
| `Dates` | `dates.dfy` | The value-level meaning of the repair `Normalized` and of the computations on repaired fields: `dayOfWeek`, `dayUntil`, `monthUntil`, the two `until` forms, and `<`, `>` and `==`. |
| `DateLaws` | `date_laws.dfy` | Lemmas about `Dates`: idempotence, epoch-day arithmetic, day-of-week stepping, the read-back of `until`, and the comparisons. |
| `LocalDates` | `localdate.dfy` | The class `LocalDate`: fields `internalYear`, `internalMonth` and `internalDay`, and every initialiser, property, query and operator of the Swift class. |
| `Times` | `times.dfy` | `Calendar.Component`, the `Time` record of a `LocalTime`'s four fields, and `TimeOps`. |
| `DateTimes` | `datetimes.dfy` | The value-level meaning of `LocalDateTime`: the hour carry `Carried`, the fully repaired `Settled`, the two halves of `until`, and the comparisons. |
| `LocalDateTimes` | `localdatetime.dfy` | The class `LocalDateTime`: a field `internalDate: LocalDate` and a field `internalTime: Time`. |
| `Periods` | `periods.dfy` | The repair `NormalizedPeriod` and the class `Period`. Also `LocalDateTime + Period`, `LocalDateTime += Period` and the two `-` forms. |

`TimeOps` is a record of functions that stands for the `LocalTime`
operations the core calls: its `until`, `<`, `>`, `==`, `with`, `plus`,
`minus`, `range`, `+`, `-`, `+=` and `-=`. It also stands for `init(nanoOfDay:)`
and `LocalTime.min`/`max`. Those operations enter the model as parameters.

Every state-changing method states its whole new state through a function
on values, such as `Triple()`, `Value()` or `Fields()`. Its visible side
effects are stated too: a getter normalises its receiver, and a comparison
normalises both operands. The lemmas are stated over those functions.

### Signed residues in `Period`

`Period`'s repair (Sources/AnyDate/Period.swift:55-65) reduces each sub-day
field with Swift's truncating `%`, so a negative input keeps a negative
residue, for example `-NanosPerSecond < nano <= 0`.
`Periods.NormalizedPeriodInRange` states the signed ranges the code gives.
`Periods.NormalizedPeriodBounds` gives the non-negative ranges for
non-negative sub-day inputs.

## Model

| member | source | states |
|---|---|---|
| Arith.TDiv | Sources/AnyDate/LocalDate.swift:100-104 | Swift's `/` on `Int`: the remainder `a - b*q` has the dividend's sign and is smaller than the divisor in size |
| Arith.TMod | Sources/AnyDate/LocalDate.swift:206 | Swift's `%` on `Int`: `a == b*TDiv(a,b) + r`, and `r` has the sign of `a` and is smaller than `b` in size |
| Arith.TDivNegate | Sources/AnyDate/LocalDate.swift:140-147 | truncating division is odd in its dividend: `TDiv(-a,b) == -TDiv(a,b)` and `TMod(-a,b) == -TMod(a,b)` |
| Arith.TModZeroIff | Sources/AnyDate/LocalDate.swift:162-165 | for a positive divisor, Swift's `a % b == 0` holds exactly when the Euclidean remainder is zero |
| Calendar.LeapTestsTruncated | Sources/AnyDate/LocalDate.swift:162-165 | the truncating tests `year % 100` and `year % 400` of `isLeapYear(year:)` agree with divisibility for negative years too |
| Calendar.LeapYearExamples | Sources/AnyDate/LocalDate.swift:162-165 | 1900 is common, 2000 and 2024 are leap and 2023 is common; 0, -4 and -400 are leap, -100 and -1 are common |
| Calendar.LengthOfMonth | Sources/AnyDate/LocalDate.swift:150-161 | every month has 28 to 31 days: 29 exactly in a leap February, 28 exactly in a common February, 30 exactly for April, June, September and November |
| Calendar.LengthOfYear | Sources/AnyDate/LocalDate.swift:222-225 | a year has 366 days exactly when it is a leap year, and 365 otherwise |
| EpochDays.DaysZeroTo1970IsYearStart | Sources/AnyDate/LocalDate.swift:29 | the constant `daysZeroTo1970` (719528) is the number of days from 0000-01-01 to 1970-01-01 |
| EpochDays.ToEpochDayCounts | Sources/AnyDate/LocalDate.swift:175-197 | for a month in 1...12, the closed formula of `toEpochDay` equals the day count from the year start, month table and day, less `daysZeroTo1970` |
| EpochDays.FromEpochDayCorrect | Sources/AnyDate/LocalDate.swift:491-522 | for every integer `e`, `init(epochDay: e)` yields a valid date whose epoch day is `e` |
| EpochDays.EpochDayRoundTrip | Sources/AnyDate/LocalDate.swift:175-197 | for every valid date, `init(epochDay: toEpochDay())` gives the same date back |
| EpochDays.ToEpochDayInjective | Sources/AnyDate/LocalDate.swift:175-197 | two valid dates with the same epoch day are the same date |
| EpochDays.ToEpochDayIncreasing | Sources/AnyDate/LocalDate.swift:175-197 | on valid dates `toEpochDay` is strictly increasing in calendar order |
| EpochDays.EpochOrigin | Sources/AnyDate/LocalDate.swift:491-522 | 1970-01-01 is epoch day 0 in both directions |
| Dates.Normalized | Sources/AnyDate/LocalDate.swift:199-210 | `normalize` always yields a valid triple and leaves a valid triple unchanged |
| DateLaws.NormalizedIdempotent | Sources/AnyDate/LocalDate.swift:199-210 | normalising twice is the same as normalising once |
| DateLaws.FoldedEpochDay | Sources/AnyDate/LocalDate.swift:199-208 | for a non-negative month count, the folded triple's epoch day is the first of its proleptic month plus `day - 1`, so an overflowing day runs on into later months |
| DateLaws.FoldedValid | Sources/AnyDate/LocalDate.swift:199-206 | folding a valid triple with a non-negative month count leaves it as it is |
| DateLaws.ValidEpochDay | Sources/AnyDate/LocalDate.swift:175-197 | a valid date of year 0 or later lies `day - 1` days after the first of its proleptic month |
| DateLaws.PlusDaysEpochDay | Sources/AnyDate/LocalDate.swift:328-330 | adding `n` to the day of a valid date and repairing moves its epoch day by exactly `n` |
| DateLaws.SameDayRepairsAlike | Sources/AnyDate/LocalDate.swift:199-210 | two triples that repair to the same epoch day repair to the same date |
| DateLaws.NormalizedThirteenthMonth | Sources/AnyDate/LocalDate.swift:199-210 | 2023-13-01 repairs to 2024-01-01 |
| DateLaws.NormalizedPastFebruary | Sources/AnyDate/LocalDate.swift:199-210 | 2023-02-30 repairs to 2023-03-02 |
| DateLaws.LeapDayInCommonYear | Sources/AnyDate/LocalDate.swift:199-210 | February 29 of a common year of 0 or later repairs to March 1 |
| DateLaws.NormalizedNegativeYearAsWritten | Sources/AnyDate/LocalDate.swift:204 | `floor(Double(monthCount) / 12)` floors while `monthCount % 12` truncates, so (-5, 3, 40) repairs to (-6, 4, 10) |
| DateLaws.SuccIsNextDay | Sources/AnyDate/LocalDate.swift:175-197 | the calendar successor of a valid date is valid and has the next epoch day |
| DateLaws.PlusOneDayIsSucc | Sources/AnyDate/LocalDate.swift:328-330 | `plus(day: 1)` of a valid date (year 0 or later), read back, is its calendar successor across month and year ends |
| DateLaws.WeekdayTotalCounts | Sources/AnyDate/LocalDate.swift:97-118 | for a valid date from year 1 on, the `total` that `dayOfWeek` builds is the epoch day plus `daysZeroTo1970 - 367` |
| DateLaws.DayOfWeekFromEpochDay | Sources/AnyDate/LocalDate.swift:97-118 | for a valid date from year 1 on, `dayOfWeek` is a function of the epoch day alone and lies in 0...6 |
| DateLaws.DayOfWeekSucc | Sources/AnyDate/LocalDate.swift:97-118 | the day after a valid date has the next weekday number, modulo 7 |
| DateLaws.DayOfWeekOfNextDay | Sources/AnyDate/LocalDate.swift:97-118 | any two valid dates one epoch day apart have consecutive weekday numbers, modulo 7 |
| DateLaws.DayOfWeekAsWritten | Sources/AnyDate/LocalDate.swift:97-118 | 2000-01-01 (a Saturday) gets 4 and 0000-01-04 gets 7, outside the documented 0...6 |
| DateLaws.MonthUntilCounts | Sources/AnyDate/LocalDate.swift:140-147 | `monthUntil` is the difference of the proleptic months, less one when a forward span ends on an earlier day of the month, plus one when a backward span ends on a later day |
| DateLaws.UntilAntisymmetric | Sources/AnyDate/LocalDate.swift:412-429 | for every date unit, `a.until(b)` is minus `b.until(a)`, for all raw triples |
| DateLaws.UntilSelf | Sources/AnyDate/LocalDate.swift:412-429 | a date is zero units from itself in every date unit |
| DateLaws.DayUntilThenPlus | Sources/AnyDate/LocalDate.swift:137-139 | adding `dayUntil(e)` days to `s` and repairing gives `e` |
| DateLaws.UntilAgreesWithUnits | Sources/AnyDate/LocalDate.swift:388-429 | the years of `until(endDate:)` are `until(.year)`; years times 12 plus months is `until(.month)`; the months lie strictly between -12 and 12 |
| DateLaws.UntilThenPlus | Sources/AnyDate/LocalDate.swift:388-409 | adding the years, then the months, then the days that `until(endDate:)` returns to `s` and repairing gives the end date |
| DateLaws.UntilMonthEndAsWritten | Sources/AnyDate/LocalDate.swift:388-409 | from 2023-01-31 to 2023-03-01, `until` gives (0, 1, -2): a negative day count |
| DateLaws.EqualIsSameDay | Sources/AnyDate/LocalDate.swift:568-570 | `==` holds exactly when the two repaired dates have the same epoch day |
| DateLaws.EqualAfterRepair | Sources/AnyDate/LocalDate.swift:568-570 | 2023-13-01 == 2024-01-01 |
| DateLaws.LessGreaterMirror | Sources/AnyDate/LocalDate.swift:530-550 | `<` and `>` are irreflexive, and `a < b` holds exactly when `b > a` |
| DateLaws.EqualIsNeitherLessNorGreater | Sources/AnyDate/LocalDate.swift:530-570 | `a == b` holds exactly when neither `a < b` nor `a > b` |
| DateLaws.EarlierIsLess | Sources/AnyDate/LocalDate.swift:530-550 | an earlier repaired date, or one with an earlier year, is `<`; one with a later year is `>` |
| DateLaws.LessAsWritten | Sources/AnyDate/LocalDate.swift:530-538 | both 2023-12-01 < 2024-01-01 and 2024-01-01 < 2023-12-01 hold |
| LocalDates.UntilStarts | Sources/AnyDate/LocalDate.swift:388-396 | `until(endDate:)` starts from the proleptic-month difference and the day difference of the two repaired dates |
| LocalDates.UntilFromBorrowing | Sources/AnyDate/LocalDate.swift:395-400 | a forward span with a negative day difference borrows a month: the days are counted from `s` moved by one month fewer |
| LocalDates.UntilFromLending | Sources/AnyDate/LocalDate.swift:401-404 | a backward span with a positive day difference lends a month: the days shrink by the end month's length |
| LocalDates.UntilFromPlain | Sources/AnyDate/LocalDate.swift:405-408 | otherwise the month total splits by truncating division into years and months, and the day difference is kept |
| LocalDates.AssignedIsCombinedInRange | Sources/AnyDate/LocalDate.swift:601-612 | `lhs += rhs` agrees with `lhs = lhs + rhs` when each intermediate date written by `+=` is already valid |
| LocalDates.CompoundAddIsNotAdd | Sources/AnyDate/LocalDate.swift:601-612 | 2024-02-29 + 0001-01-01 reads 2025-03-30, but `+=` gives 2025-04-02, a different day |
| LocalDates.LocalDate.constructor | Sources/AnyDate/LocalDate.swift:477-481 | `init(year:month:day:)` stores the three values unrepaired |
| LocalDates.LocalDate.MonthDay | Sources/AnyDate/LocalDate.swift:470-474 | `init(month:day:)` stores year 0 and the given month and day |
| LocalDates.LocalDate.YearDay | Sources/AnyDate/LocalDate.swift:484-488 | `init(year:dayOfYear:)` stores January and lets the day of the year overflow |
| LocalDates.LocalDate.OfEpochDay | Sources/AnyDate/LocalDate.swift:491-522 | `init(epochDay:)` yields a valid date whose epoch day is the argument |
| LocalDates.LocalDate.Copy | Sources/AnyDate/LocalDate.swift:463-467 | `init(_:)` reads the other date through its getters, so it normalises the other date and copies its repaired fields |
| LocalDates.LocalDate.Min | Sources/AnyDate/LocalDate.swift:37-39 | `min` is `minYear`-`minMonth`-01 |
| LocalDates.LocalDate.Max | Sources/AnyDate/LocalDate.swift:43-48 | `max` is `maxYear`-`maxMonth`-31 |
| LocalDates.LocalDate.Normalize | Sources/AnyDate/LocalDate.swift:199-210 | the stored triple becomes its repair, which is valid |
| LocalDates.LocalDate.Year | Sources/AnyDate/LocalDate.swift:70-73 | the getter repairs the date and returns its year |
| LocalDates.LocalDate.Month | Sources/AnyDate/LocalDate.swift:76-79 | the getter repairs the date and returns a month in `minMonth...maxMonth` |
| LocalDates.LocalDate.Day | Sources/AnyDate/LocalDate.swift:82-85 | the getter repairs the date and returns a day within the month's length |
| LocalDates.LocalDate.SetYear | Sources/AnyDate/LocalDate.swift:70-73 | the setter repairs the date, then stores the raw year |
| LocalDates.LocalDate.SetMonth | Sources/AnyDate/LocalDate.swift:76-79 | the setter repairs the date, then stores the raw month |
| LocalDates.LocalDate.SetDay | Sources/AnyDate/LocalDate.swift:82-85 | the setter repairs the date, then stores the raw day |
| LocalDates.LocalDate.DayOfWeek | Sources/AnyDate/LocalDate.swift:97-118 | repairs the date and returns `dayOfWeek`'s formula on it |
| LocalDates.LocalDate.EpochDay | Sources/AnyDate/LocalDate.swift:121-124 | repairs the date and returns its epoch day |
| LocalDates.LocalDate.LengthOfMonth | Sources/AnyDate/LocalDate.swift:216-219 | repairs the date and returns its month's length |
| LocalDates.LocalDate.LengthOfYear | Sources/AnyDate/LocalDate.swift:222-225 | repairs the date and returns its year's length |
| LocalDates.LocalDate.IsLeapYear | Sources/AnyDate/LocalDate.swift:229-232 | repairs the date and tells whether its year is a leap year |
| LocalDates.LocalDate.With | Sources/AnyDate/LocalDate.swift:256-270 | repairs the receiver; the new date has the chosen field replaced and the other two repaired fields kept |
| LocalDates.LocalDate.WithYear | Sources/AnyDate/LocalDate.swift:273-275 | a new date with the repaired month and day and the given year |
| LocalDates.LocalDate.WithMonth | Sources/AnyDate/LocalDate.swift:278-280 | a new date with the repaired year and day and the given month |
| LocalDates.LocalDate.WithDayOfMonth | Sources/AnyDate/LocalDate.swift:283-285 | a new date with the repaired year and month and the given day |
| LocalDates.LocalDate.WithDayOfYear | Sources/AnyDate/LocalDate.swift:288-290 | a new date in January of the repaired year, with the day of the year as its day |
| LocalDates.LocalDate.Plus | Sources/AnyDate/LocalDate.swift:293-310 | a new date from the raw fields, with the year, month or day moved (a week is 7 days); the receiver is untouched |
| LocalDates.LocalDate.PlusYear | Sources/AnyDate/LocalDate.swift:313-315 | a new date with the raw year moved by `year` |
| LocalDates.LocalDate.PlusMonth | Sources/AnyDate/LocalDate.swift:318-320 | a new date with the raw month moved by `month` |
| LocalDates.LocalDate.PlusWeek | Sources/AnyDate/LocalDate.swift:323-325 | a new date with the raw day moved by `7 * week` |
| LocalDates.LocalDate.PlusDay | Sources/AnyDate/LocalDate.swift:328-330 | a new date with the raw day moved by `day` |
| LocalDates.LocalDate.Minus | Sources/AnyDate/LocalDate.swift:333-335 | `plus` with the amount negated |
| LocalDates.LocalDate.MinusYear | Sources/AnyDate/LocalDate.swift:338-340 | a new date with the raw year moved back by `year` |
| LocalDates.LocalDate.MinusMonth | Sources/AnyDate/LocalDate.swift:343-345 | a new date with the raw month moved back by `month` |
| LocalDates.LocalDate.MinusWeek | Sources/AnyDate/LocalDate.swift:348-350 | a new date with the raw day moved back by `7 * week` |
| LocalDates.LocalDate.MinusDay | Sources/AnyDate/LocalDate.swift:353-355 | a new date with the raw day moved back by `day` |
| LocalDates.LocalDate.Range | Sources/AnyDate/LocalDate.swift:360-385 | the range starts at 1 and ends at the month's or year's length. Weeks of the month end at 4 in a common February and at 5 otherwise. Eras end at `maxYear + 1` for year 0 or earlier and at `maxYear` otherwise |
| LocalDates.LocalDate.DayUntil | Sources/AnyDate/LocalDate.swift:137-139 | repairs both dates and returns the difference of their epoch days |
| LocalDates.LocalDate.MonthUntil | Sources/AnyDate/LocalDate.swift:140-147 | repairs both dates and returns the packed-month difference truncated by 32 |
| LocalDates.LocalDate.UntilUnit | Sources/AnyDate/LocalDate.swift:412-429 | repairs both dates and returns the count in the date unit asked for |
| LocalDates.LocalDate.Until | Sources/AnyDate/LocalDate.swift:388-409 | repairs both dates and returns the years, months and days of `until(endDate:)` |
| LocalDates.LocalDate.DaysFromMoved | Sources/AnyDate/LocalDate.swift:398-400 | the borrowed day count: the end date's epoch day less that of a copy of `s` with its month moved; neither date changes |
| LocalDates.LocalDate.Less | Sources/AnyDate/LocalDate.swift:530-538 | repairs both operands; true when the year, the month or the day is smaller, each compared on its own |
| LocalDates.LocalDate.Greater | Sources/AnyDate/LocalDate.swift:542-550 | repairs both operands; true when the year, the month or the day is larger, each compared on its own |
| LocalDates.LocalDate.LessOrEqual | Sources/AnyDate/LocalDate.swift:554-556 | `<=` is the negation of `>` |
| LocalDates.LocalDate.GreaterOrEqual | Sources/AnyDate/LocalDate.swift:560-562 | `>=` is the negation of `<` |
| LocalDates.LocalDate.Equal | Sources/AnyDate/LocalDate.swift:568-570 | repairs both operands and compares their years, months and days |
| LocalDates.LocalDate.Add | Sources/AnyDate/LocalDate.swift:601-607 | a new date whose fields are the sums of the repaired fields |
| LocalDates.LocalDate.Subtract | Sources/AnyDate/LocalDate.swift:613-619 | a new date whose fields are the differences of the repaired fields |
| LocalDates.LocalDate.Combine | Sources/AnyDate/LocalDate.swift:601-619 | `+` and `-` under one sign |
| LocalDates.LocalDate.AddAssign | Sources/AnyDate/LocalDate.swift:608-612 | three setter calls in turn, each repairing before it writes; `d += d` reads the operand mid-update |
| LocalDates.LocalDate.SubtractAssign | Sources/AnyDate/LocalDate.swift:620-624 | the same with each field decreased |
| LocalDates.LocalDate.CompoundAssign | Sources/AnyDate/LocalDate.swift:608-624 | `+=` and `-=` under one sign, for distinct and aliased operands |
| LocalDates.LocalDate.DistinctCompoundAssign | Sources/AnyDate/LocalDate.swift:608-624 | on distinct operands, `lhs` steps through year, month and day setters; `rhs` is left repaired |
| LocalDates.LocalDate.SelfCompoundAssign | Sources/AnyDate/LocalDate.swift:608-624 | on one date, each step reads the field just written |
| Times.UnitsPerDay | Sources/AnyDate/LocalDateTime.swift:353-367 | a day has 24 hours, 1440 minutes, 86400 seconds and 86400000000000 nanoseconds |
| DateTimes.CarryKeepsHours | Sources/AnyDate/LocalDateTime.swift:106-111 | at 24 hours or more, the carry repairs the date. It keeps the month and year, keeps `day * 24 + hour`, and leaves the hour in 0...23 with the other time fields unchanged; otherwise nothing changes |
| DateTimes.CarryIdempotent | Sources/AnyDate/LocalDateTime.swift:106-111 | carrying twice is the same as carrying once |
| DateTimes.CarryKeepsInstant | Sources/AnyDate/LocalDateTime.swift:106-111 | for a repaired date in year 0 or later, the carry preserves epoch day times 24 plus hour |
| DateTimes.SettledIsStable | Sources/AnyDate/LocalDateTime.swift:56-71 | after a date getter the date is valid and the hour is below 24; carrying or settling again changes nothing |
| DateTimes.CarryReadsBack | Sources/AnyDate/LocalDateTime.swift:56-111 | 2024-01-31 25:00 reads back as 2024-02-01 01:00 |
| DateTimes.UntilTimeCounts | Sources/AnyDate/LocalDateTime.swift:350-371 | a time-unit `until` is the day difference of the carried dates, times the unit's count per day, plus the time part |
| DateTimes.UntilDateIs | Sources/AnyDate/LocalDateTime.swift:373-381 | a date-unit `until` is the date `until` from the start date to the shifted end date |
| DateTimes.UntilOfCarried | Sources/AnyDate/LocalDateTime.swift:345-347 | both `until` halves give the same answer before and after the carry |
| DateTimes.UntilDateSameDay | Sources/AnyDate/LocalDateTime.swift:373-381 | two date-times on the same day are zero date units apart |
| DateTimes.UntilShiftAsWritten | Sources/AnyDate/LocalDateTime.swift:373-381 | 2024-01-01 10:00 to 2024-01-02 11:00 counts 2 days, and to 2024-01-02 09:00 counts 1 |
| DateTimes.CompareSettled | Sources/AnyDate/LocalDateTime.swift:455-496 | `<`, `>` and `==` give the same answers on the settled values the operands hold afterwards as on the stored values, so repeating a comparison repeats its answer |
| DateTimes.EqualAfterCarry | Sources/AnyDate/LocalDateTime.swift:491-496 | 2024-01-31 25:00 == 2024-02-01 01:00 |
| LocalDateTimes.LocalDateTime.OfParts | Sources/AnyDate/LocalDateTime.swift:430-433 | `init(date:time:)` stores a repaired copy of the date (repairing the argument too) and the time |
| LocalDateTimes.LocalDateTime.constructor | Sources/AnyDate/LocalDateTime.swift:437-440 | `init(year:…)` stores the seven values unrepaired |
| LocalDateTimes.LocalDateTime.OfEpochDay | Sources/AnyDate/LocalDateTime.swift:444-447 | a valid date at the given epoch day, and the time of the given nano-of-day |
| LocalDateTimes.LocalDateTime.Copy | Sources/AnyDate/LocalDateTime.swift:423-426 | `init(_:)` settles the other date-time through its getters and copies it into a fresh date |
| LocalDateTimes.LocalDateTime.Min | Sources/AnyDate/LocalDateTime.swift:8-10 | `min` is `LocalDate.min` at `LocalTime.min` |
| LocalDateTimes.LocalDateTime.Max | Sources/AnyDate/LocalDateTime.swift:13-15 | `max` is `LocalDate.max` at `LocalTime.max` |
| LocalDateTimes.LocalDateTime.Normalize | Sources/AnyDate/LocalDateTime.swift:106-111 | the stored value becomes its carry |
| LocalDateTimes.LocalDateTime.DatePart | Sources/AnyDate/LocalDateTime.swift:44-47 | after the carry, the getter returns the stored date object itself |
| LocalDateTimes.LocalDateTime.SetDatePart | Sources/AnyDate/LocalDateTime.swift:44-47 | after the carry, the setter stores the given date object |
| LocalDateTimes.LocalDateTime.TimePart | Sources/AnyDate/LocalDateTime.swift:50-53 | after the carry, the getter returns the time, whose hour is below 24 |
| LocalDateTimes.LocalDateTime.SetTimePart | Sources/AnyDate/LocalDateTime.swift:50-53 | after the carry, the setter stores the time |
| LocalDateTimes.LocalDateTime.Year | Sources/AnyDate/LocalDateTime.swift:56-59 | the getter settles the value and returns the year |
| LocalDateTimes.LocalDateTime.Month | Sources/AnyDate/LocalDateTime.swift:62-65 | the getter settles the value and returns the month |
| LocalDateTimes.LocalDateTime.Day | Sources/AnyDate/LocalDateTime.swift:68-71 | the getter settles the value and returns the day |
| LocalDateTimes.LocalDateTime.SetYear | Sources/AnyDate/LocalDateTime.swift:56-59 | after the carry, the date's year setter runs |
| LocalDateTimes.LocalDateTime.SetMonth | Sources/AnyDate/LocalDateTime.swift:62-65 | after the carry, the date's month setter runs |
| LocalDateTimes.LocalDateTime.SetDay | Sources/AnyDate/LocalDateTime.swift:68-71 | after the carry, the date's day setter runs |
| LocalDateTimes.LocalDateTime.DayOfWeek | Sources/AnyDate/LocalDateTime.swift:74 | the weekday of the settled date |
| LocalDateTimes.LocalDateTime.Hour | Sources/AnyDate/LocalDateTime.swift:77-80 | the hour after the carry, below 24 |
| LocalDateTimes.LocalDateTime.Minute | Sources/AnyDate/LocalDateTime.swift:83-86 | the minute after the carry |
| LocalDateTimes.LocalDateTime.Second | Sources/AnyDate/LocalDateTime.swift:89-92 | the second after the carry |
| LocalDateTimes.LocalDateTime.Nano | Sources/AnyDate/LocalDateTime.swift:95-98 | the nanosecond after the carry |
| LocalDateTimes.LocalDateTime.SetHour | Sources/AnyDate/LocalDateTime.swift:77-80 | after the carry, stores the raw hour |
| LocalDateTimes.LocalDateTime.SetMinute | Sources/AnyDate/LocalDateTime.swift:83-86 | after the carry, stores the raw minute |
| LocalDateTimes.LocalDateTime.SetSecond | Sources/AnyDate/LocalDateTime.swift:89-92 | after the carry, stores the raw second |
| LocalDateTimes.LocalDateTime.SetNano | Sources/AnyDate/LocalDateTime.swift:95-98 | after the carry, stores the raw nanosecond |
| LocalDateTimes.LocalDateTime.LengthOfMonth | Sources/AnyDate/LocalDateTime.swift:117-120 | the length of the settled date's month |
| LocalDateTimes.LocalDateTime.LengthOfYear | Sources/AnyDate/LocalDateTime.swift:123-126 | the length of the settled date's year |
| LocalDateTimes.LocalDateTime.IsLeapYear | Sources/AnyDate/LocalDateTime.swift:130-133 | whether the settled date's year is a leap year |
| LocalDateTimes.LocalDateTime.With | Sources/AnyDate/LocalDateTime.swift:164-180 | settles the receiver; a new date-time has the date field replaced and repaired, or the time field replaced through `LocalTime.with` |
| LocalDateTimes.LocalDateTime.Plus | Sources/AnyDate/LocalDateTime.swift:218-232 | a new date-time: the raw date moved and repaired with the raw time kept, or the repaired date with `LocalTime.plus` of the time |
| LocalDateTimes.LocalDateTime.Minus | Sources/AnyDate/LocalDateTime.swift:275-289 | the same with the amount negated |
| LocalDateTimes.LocalDateTime.Range | Sources/AnyDate/LocalDateTime.swift:332-342 | time units after the carry as `LocalTime.range`; date units as `LocalDate.range` of the settled date, with both bounds for months, years, weeks of the month and eras |
| LocalDateTimes.LocalDateTime.UntilUnit | Sources/AnyDate/LocalDateTime.swift:345-382 | carries both date-times, then the time-unit or date-unit `until` |
| LocalDateTimes.LocalDateTime.UntilTime | Sources/AnyDate/LocalDateTime.swift:350-371 | the day difference scaled to the unit plus the time part, or only the time part on the same day |
| LocalDateTimes.LocalDateTime.UntilDate | Sources/AnyDate/LocalDateTime.swift:373-381 | the date `until` to the end date, shifted back by a day or on by a day by the comparisons of `LocalDate` and `LocalTime` |
| LocalDateTimes.LocalDateTime.Less | Sources/AnyDate/LocalDateTime.swift:455-462 | carries both; true when the dates are `<` or else the times are `<` |
| LocalDateTimes.LocalDateTime.Greater | Sources/AnyDate/LocalDateTime.swift:466-473 | carries both; true when the dates are `>` or else the times are `>` |
| LocalDateTimes.LocalDateTime.LessOrEqual | Sources/AnyDate/LocalDateTime.swift:477-479 | the negation of `>` |
| LocalDateTimes.LocalDateTime.GreaterOrEqual | Sources/AnyDate/LocalDateTime.swift:483-485 | the negation of `<` |
| LocalDateTimes.LocalDateTime.Equal | Sources/AnyDate/LocalDateTime.swift:491-496 | carries both; equal dates and equal times |
| LocalDateTimes.LocalDateTime.Add | Sources/AnyDate/LocalDateTime.swift:517-522 | a new date-time from the repaired `LocalDate +` of the dates and `LocalTime +` of the times |
| LocalDateTimes.LocalDateTime.Subtract | Sources/AnyDate/LocalDateTime.swift:527-532 | the same with `-` |
| LocalDateTimes.LocalDateTime.AddAssign | Sources/AnyDate/LocalDateTime.swift:523-526 | the date part gets `LocalDate +=`, aliased or not, and the time `LocalTime +=` |
| LocalDateTimes.LocalDateTime.SubtractAssign | Sources/AnyDate/LocalDateTime.swift:533-536 | the same with `-=` |
| LocalDateTimes.LocalDateTime.AddDate | Sources/AnyDate/LocalDateTime.swift:539-544 | a new date-time: the date plus a `LocalDate`, repaired, at the same time |
| LocalDateTimes.LocalDateTime.SubtractDate | Sources/AnyDate/LocalDateTime.swift:548-553 | the same with `-` |
| LocalDateTimes.LocalDateTime.AddAssignDate | Sources/AnyDate/LocalDateTime.swift:545-547 | `LocalDate +=` on the stored date object |
| LocalDateTimes.LocalDateTime.SubtractAssignDate | Sources/AnyDate/LocalDateTime.swift:554-556 | `LocalDate -=` on the stored date object |
| LocalDateTimes.LocalDateTime.AddTime | Sources/AnyDate/LocalDateTime.swift:559-564 | a new date-time: the repaired date and the time plus a `LocalTime` |
| LocalDateTimes.LocalDateTime.SubtractTime | Sources/AnyDate/LocalDateTime.swift:568-573 | the same with `-` |
| LocalDateTimes.LocalDateTime.AddAssignTime | Sources/AnyDate/LocalDateTime.swift:565-567 | `LocalTime +=` on the stored time; the date object is kept |
| LocalDateTimes.LocalDateTime.SubtractAssignTime | Sources/AnyDate/LocalDateTime.swift:574-576 | `LocalTime -=` on the stored time |
| Periods.FoldReadsBack | Sources/AnyDate/Period.swift:67-70 | the fold stores the repaired `LocalDate(year, month + 1, day + 1)`'s fields, with the month and day less one |
| Periods.SubDayCarryConserves | Sources/AnyDate/Period.swift:53-65 | the sub-day carry keeps the total in nanoseconds (days, hours, minutes, seconds, nanoseconds) and the year and month |
| Periods.NormalizedPeriodInRange | Sources/AnyDate/Period.swift:44-71 | after the repair each sub-day field is strictly inside its unit's signed range. The month is in 0...11 and the day within the month counted from zero |
| Periods.NormalizedPeriodBounds | Sources/AnyDate/Period.swift:53-65 | with non-negative sub-day inputs the sub-day fields end in their non-negative ranges |
| Periods.SmallFieldsCarryNothing | Sources/AnyDate/Period.swift:53-65 | fields already inside their ranges carry nothing |
| Periods.InRangeUnchanged | Sources/AnyDate/Period.swift:44-71 | a period already in range is left as it is |
| Periods.NormalizedPeriodIdempotent | Sources/AnyDate/Period.swift:44-71 | repairing twice is the same as repairing once |
| Periods.TwelfthMonthRollsOver | Sources/AnyDate/Period.swift:67-70 | month 12 (counted from zero) on a day that exists in January becomes month 0 of the next year |
| Periods.HoursCarryIntoDays | Sources/AnyDate/Period.swift:62-65 | 25 hours become 1 day and 1 hour |
| Periods.SecondsCarryIntoHours | Sources/AnyDate/Period.swift:56-61 | 3661 seconds become 1 hour, 1 minute and 1 second |
| Periods.NormalizedPeriodIs | Sources/AnyDate/Period.swift:44-71 | with the sub-day fields in range, the repair is exactly the calendar fold |
| Periods.DayCarryUsesOwnYear | Sources/AnyDate/Period.swift:67-70 | 28 days past February fit in year 0, a leap year, but carry into March in year 1 |
| Periods.SumRepairedOnce | Sources/AnyDate/Period.swift:86-96 | `+` builds one period from the sums and repairs it once |
| Periods.CompoundAddIsNotAdd | Sources/AnyDate/Period.swift:86-105 | for 2024 y 1 m 28 d plus 1 y 1 m 1 d, `+` gives 2025 y 2 m 29 d and `+=` gives 2025 y 3 m 1 d |
| Periods.CompoundAddRepairsEachStep | Sources/AnyDate/Period.swift:97-105 | `+=` repairs after each of its seven field writes |
| Periods.ZeroStepKeeps | Sources/AnyDate/Period.swift:5-32 | adding zero to any field of a repaired period changes nothing |
| Periods.Period.constructor | Sources/AnyDate/Period.swift:73-82 | `init` stores the repair of its arguments |
| Periods.Period.Normalize | Sources/AnyDate/Period.swift:44-71 | the stored fields become their repair |
| Periods.Period.SetYear | Sources/AnyDate/Period.swift:5-8 | stores the year, then repairs |
| Periods.Period.SetMonth | Sources/AnyDate/Period.swift:9-12 | stores the month, then repairs |
| Periods.Period.SetDay | Sources/AnyDate/Period.swift:13-16 | stores the day, then repairs |
| Periods.Period.SetHour | Sources/AnyDate/Period.swift:17-20 | stores the hour, then repairs |
| Periods.Period.SetMinute | Sources/AnyDate/Period.swift:21-24 | stores the minute, then repairs |
| Periods.Period.SetSecond | Sources/AnyDate/Period.swift:25-28 | stores the second, then repairs |
| Periods.Period.SetNano | Sources/AnyDate/Period.swift:29-32 | stores the nanosecond, then repairs |
| Periods.Period.AddToProperty | Sources/AnyDate/Period.swift:97-105 | `field += amount` reads the field and writes it back through the repairing setter |
| Periods.Period.Add | Sources/AnyDate/Period.swift:86-96 | a new period: the repair of the field-wise sum |
| Periods.Period.Subtract | Sources/AnyDate/Period.swift:106-116 | a new period: the repair of the field-wise difference |
| Periods.Period.AddAssign | Sources/AnyDate/Period.swift:97-105 | seven compound field assignments in turn, each repairing |
| Periods.Period.SubtractAssign | Sources/AnyDate/Period.swift:117-125 | the same with each field decreased |
| Periods.Period.CompoundAssign | Sources/AnyDate/Period.swift:97-125 | `+=` and `-=` under one sign |
| Periods.ShiftDateTime | Sources/AnyDate/Period.swift:128-158 | a new date-time from the settled fields plus or minus the period's, stored unrepaired; the operand is left settled |
| Periods.AddToDateTime | Sources/AnyDate/Period.swift:128-138 | `dateTime + period` |
| Periods.SubtractFromDateTime | Sources/AnyDate/Period.swift:148-158 | `dateTime - period` |
| Periods.ShiftDateTimeInPlace | Sources/AnyDate/Period.swift:139-167 | seven compound assignments on the date-time's properties in turn |
| Periods.AddToDateTimeProperty | Sources/AnyDate/Period.swift:139-147 | one `dateTime.field += amount`: a date field through the settled date, a time field after the carry |
| Periods.AddAssignToDateTime | Sources/AnyDate/Period.swift:139-147 | `dateTime += period` |
| Periods.SubtractAssignFromDateTime | Sources/AnyDate/Period.swift:159-167 | `dateTime -= period` |
| Periods.ShiftedInPlaceCarriesHour | Sources/AnyDate/Period.swift:139-167 | after `+=` or `-=` with a period the stored hour is below 24 |
| Periods.ShiftedInPlaceOfHours | Sources/AnyDate/Period.swift:139-167 | on a settled date-time, `+=` of hours alone is one hour write followed by the carry |
| Periods.ShiftStoresUncarried | Sources/AnyDate/Period.swift:128-138 | 2024-01-31 23:00 + 1 hour stores 24:00 on January 31 |
| Periods.ShiftInPlaceCarries | Sources/AnyDate/Period.swift:139-147 | 2024-01-31 23:00 += 1 hour stores 00:00 on January 32 |
| Periods.MidnightCarries | Sources/AnyDate/LocalDateTime.swift:106-111 | 24:00 on January 31 carries to 00:00 on January 32 |
| Periods.DayAfterJanuaryReadsBack | Sources/AnyDate/LocalDateTime.swift:56-111 | January 32 at 00:00 reads back as 2024-02-01 00:00 |
| Periods.MidnightReadsBack | Sources/AnyDate/LocalDateTime.swift:56-111 | both stored forms read back as 2024-02-01 00:00 |
| Periods.ShiftDefersCarry | Sources/AnyDate/Period.swift:128-147 | `+` and `+=` of one hour store different values for 2024-01-31 23:00, which both read back as 2024-02-01 00:00 |

## Left out

- Parsing and formatting are left out because they are string I/O. This covers `LocalDate.parse`/`format`/`description` (Sources/AnyDate/LocalDate.swift:52-64, 432-435, 576-594) and `LocalDateTime.parse`/`format`/`description` (Sources/AnyDate/LocalDateTime.swift:18-38, 385-388, 502-510).
- The clock, time zones and Foundation `Date` are left out because they are read from the system or come from Foundation. This covers `init()`, `init(clock:)`, `init(_ date: Date)` and `toDate` (Sources/AnyDate/LocalDate.swift:235-253, 441-460; Sources/AnyDate/LocalDateTime.swift:136-161, 394-420).
- `ZonedDateTime + Period` and related (Sources/AnyDate/Period.swift:169-211) are left out because `ZonedDateTime` is not part of this model.
- `LocalTime` is not part of this model. Its operations enter as the function parameters in `TimeOps`, and its state is the four raw fields in `Time`.
- `LocalDateTime` reads and writes `internalTime.hour` through `LocalTime`'s own accessors, and `init(_:)` and `init(date:time:)` store `LocalTime(time)` copies (Sources/AnyDate/LocalDateTime.swift:107-109, 425, 432). The model assumes those accessors and that copy read, write and copy the raw fields with no repair of `LocalTime`'s own. If `LocalTime` repaired itself on read (carrying minutes into hours, say), `DateTimes.Carried` and everything built on it would differ. The model also treats the time as a value. If `LocalTime` is a class, a time handed out by the `time` getter or stored by its setter (Sources/AnyDate/LocalDateTime.swift:50-53) can be shared with another date-time or caller, and that sharing is not modelled.
- `Period(year:month:day:)` is not part of this model. `Until` returns the raw years, months and days.
- `LocalDate.range(.weekday)` (Sources/AnyDate/LocalDate.swift:362-364) is left out because it computes its bound with `ceil` on a `Double`.
- `fatalError` is modelled only as preconditions. The unsupported components of `with`, `plus`, `range` and `until` become `requires` on the component.
- `Int` and `Int64` overflow is not modelled; integers are unbounded.
- `LocalDateTime`'s named `with`/`plus`/`minus` forms (Sources/AnyDate/LocalDateTime.swift:183-215, 235-272, 292-329) each delegate to the component form that is modelled.
- `Period`'s getters read a stored field; they are the functions `Year()`…`Nano()` of `Periods.Period`.
- `Period` is a Swift struct with value semantics. The model is a class, and the operators read the right-hand side's fields before any write.
- LocalDateTimes.LocalDateTime.UntilUnit: requires that the two date-times do not share one `LocalDate` object unless they are the same date-time.
- LocalDateTimes.LocalDateTime.Less: requires that the operands do not share one `LocalDate` object unless they are the same date-time.
- LocalDateTimes.LocalDateTime.Greater: same requirement as `Less`.
- LocalDateTimes.LocalDateTime.LessOrEqual: same requirement as `Less`.
- LocalDateTimes.LocalDateTime.GreaterOrEqual: same requirement as `Less`.
- LocalDateTimes.LocalDateTime.Equal: same requirement as `Less`.
- LocalDates.LocalDate.DaysFromMoved: requires valid dates; it is the step `until(endDate:)` takes after repairing both.
- DateLaws.DayOfWeekFromEpochDay: proved for years from 1 on. For year 0 and earlier the formula with its `total -= 1` step is modelled, but its relation to the epoch day is shown only by `DateLaws.DayOfWeekAsWritten`.
- DateLaws.DayOfWeekSucc: proved for years from 1 on, as above.
- DateLaws.DayOfWeekOfNextDay: proved for years from 1 on, as above.
- DateLaws.PlusDaysEpochDay: proved for years 0 and later. For negative years the floored fold reads a different month (see `DateLaws.NormalizedNegativeYearAsWritten`).
- DateLaws.PlusOneDayIsSucc: proved for years 0 and later, as above.
- DateTimes.CarryKeepsInstant: proved for repaired dates in years 0 and later, as above.
- DateLaws.DayUntilThenPlus: proved for start years 0 and later, as above.
- DateLaws.UntilThenPlus: proved for years 0 and later, as above.

## Behaviour as written

Verifying the natural contracts shows several places where the code does
something other than what a reader would expect. Each one is modelled as
written and exhibited by a lemma on concrete values (not executed):

- **Negative years in `normalize`.** The year becomes `floor(Double(monthCount) / 12)`,
  but the month is Swift's truncating `monthCount % 12 + 1`. For a negative
  month count that is not a multiple of 12, the two disagree. The invalid
  (-5, 3, 40) folds to (-5, -9, 40), not (-5, 3, 40). It then repairs to
  (-6, 4, 10) instead of April 9 of year -5
  (`DateLaws.NormalizedNegativeYearAsWritten`).
- **Weekday numbers.** The documentation numbers the weekdays from Sunday = 0
  to Saturday = 6. `dayOfWeek` returns 4 for 2000-01-01, which was a
  Saturday, and 7 for 0000-01-04 (`DateLaws.DayOfWeekAsWritten`). The
  number still steps by one each day, modulo 7 (`DateLaws.DayOfWeekSucc`).
- **`<` and `>` on `LocalDate` are not an order.** `<` answers true as soon
  as the year, the month or the day is smaller, and it does not check that
  the earlier fields are equal. So 2023-12-01 < 2024-01-01 and
  2024-01-01 < 2023-12-01 both hold (`DateLaws.LessAsWritten`).
- **`LocalDateTime.until` in date units.** The end date moves one day
  further when both the end date and the end time are later. So 10:00 on
  January 1 to 11:00 on January 2 counts 2 days, and to 09:00 on January 2
  counts 1 day (`DateTimes.UntilShiftAsWritten`).
- **`until(endDate:)` can return negative days.** When it borrows a month,
  it counts the days from the start moved by the remaining months, and that
  moved date may itself overflow. From 2023-01-31 to 2023-03-01 it gives
  (0, 1, -2) (`DateLaws.UntilMonthEndAsWritten`). The result still reads
  back to the end date (`DateLaws.UntilThenPlus`).
- **`+=` is not `+` for `LocalDate`.** `+` adds the repaired fields once.
  `+=` writes through the three setters, each repairing first. So
  2024-02-29 + 0001-01-01 reads 2025-03-30, while `+=` gives 2025-04-02
  (`LocalDates.CompoundAddIsNotAdd`). The two agree when every
  intermediate date is valid (`LocalDates.AssignedIsCombinedInRange`).
- **`+=` is not `+` for `Period`.** `+=` repairs after each field write.
  For 2024 years, 1 month, 28 days plus 1 year, 1 month, 1 day, the year
  is written first. Day 28 of month 1 does not exist in the common year
  2025, so it rolls into the next month before the months and days are
  added. `+` gives 2025 years, 2 months, 29 days, and `+=` gives 2025
  years, 3 months, 1 day (`Periods.CompoundAddIsNotAdd`).
- **`LocalDateTime + Period` defers the carry.** `+` stores 24:00 on January
  31, and `+=` stores 00:00 on January 32. Both read back as 2024-02-01 00:00
  (`Periods.ShiftDefersCarry`).
