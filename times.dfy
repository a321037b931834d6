/**
 * The time of day a `LocalDateTime` holds.  `LocalTime` itself is not part
 * of this model: it is a record of its four stored fields, and every
 * operation of its own (`until`, the orderings, `with`/`plus`/`minus`, the
 * operators, `range` and `init(nanoOfDay:)`) enters as a parameter of type
 * `TimeOps`, about which nothing is assumed.  Only the constants it exports
 * are fixed here.
 */
module Times {
  import opened Calendar

  /** The stored hour, minute, second and nanosecond of a `LocalTime`. */
  datatype Time = Time(hour: int, minute: int, second: int, nano: int)

  // `LocalTime.Constant`
  const NanosPerSecond: int := 1_000_000_000
  const SecondsPerMinute: int := 60
  const MinutesPerHour: int := 60
  const HoursPerDay: int := 24
  const MinutesPerDay: int := MinutesPerHour * HoursPerDay
  const SecondsPerDay: int := SecondsPerMinute * MinutesPerDay
  const NanosPerDay: int := NanosPerSecond * SecondsPerDay

  /** The units that `LocalDateTime` hands to its time part. */
  predicate IsTimeUnit(unit: Component)
  {
    unit == Hour || unit == Minute || unit == Second || unit == Nanosecond
  }

  /** How many of a time unit make one day: the factor `until` multiplies the day distance by. */
  function UnitsPerDay(unit: Component): (n: int)
    requires IsTimeUnit(unit)
    ensures unit == Nanosecond ==> n == 86_400_000_000_000
    ensures unit == Second ==> n == 86_400
    ensures unit == Minute ==> n == 1_440
    ensures unit == Hour ==> n == 24
  {
    if unit == Nanosecond then NanosPerDay
    else if unit == Second then SecondsPerDay
    else if unit == Minute then MinutesPerDay
    else HoursPerDay
  }

  /** The operations of `LocalTime` that `LocalDateTime` calls; their behaviour is left open. */
  datatype TimeOps = TimeOps(
    until: (Time, Time, Component) -> int,
    less: (Time, Time) -> bool,
    greater: (Time, Time) -> bool,
    equal: (Time, Time) -> bool,
    withValue: (Time, Component, int) -> Time,
    plus: (Time, Component, int) -> Time,
    minus: (Time, Component, int) -> Time,
    range: (Time, Component) -> (int, int),
    add: (Time, Time) -> Time,
    subtract: (Time, Time) -> Time,
    addAssign: (Time, Time) -> Time,
    subtractAssign: (Time, Time) -> Time,
    ofNanoOfDay: int -> Time,
    min: Time,
    max: Time)
}
