/** The millisecond constants every timestamp variant defines identically, and the
    length of a clock reading h:m:s.x in milliseconds. */
module TimeUnits {

  const MillisecondsPerSecond: int := 1000
  const MillisecondsPerMinute: int := 60 * MillisecondsPerSecond
  const MillisecondsPerHour: int := 60 * MillisecondsPerMinute
  const MillisecondsPerDay: int := 24 * MillisecondsPerHour

  /** The pre-market clock time, 09:00:00. */
  const PreMarketHour: int := 9
  const PreMarketMinute: int := 0
  const PreMarketSecond: int := 0

  function ClockMillis(hour: int, minute: int, second: int, millisecond: int): int {
    hour * MillisecondsPerHour + minute * MillisecondsPerMinute
    + second * MillisecondsPerSecond + millisecond
  }
}
