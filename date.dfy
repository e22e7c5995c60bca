/** Unit conversions between hours and milliseconds, and the distance to
    midnight. Numbers are exact reals here; the program uses doubles. */
module DateUtils {

  /** Milliseconds to hours. */
  function MsToHours(ms: real): (hours: real)
    ensures hours * 3600000.0 == ms
  {
    ms / 1000.0 / 60.0 / 60.0
  }

  /** Hours to milliseconds; undone by `MsToHours`. */
  function HoursToMs(hours: real): (ms: real)
    ensures MsToHours(ms) == hours
  {
    hours * 60.0 * 60.0 * 1000.0
  }

  /** Converting to hours and back gives the milliseconds one started with. */
  lemma HoursToMsOfMsToHours(ms: real)
    ensures HoursToMs(MsToHours(ms)) == ms
  {
  }

  lemma HoursToMsStrictlyIncreasing(a: real, b: real)
    requires a < b
    ensures HoursToMs(a) < HoursToMs(b)
  {
  }

  lemma MsToHoursStrictlyIncreasing(a: real, b: real)
    requires a < b
    ensures MsToHours(a) < MsToHours(b)
  {
  }

  /** `millisecondsUntilMidnight(timestamp)`. `nextMidnight` is the value of
      `new Date()` moved to 24:00 local time: the midnight after the moment of
      the call, not after `timestamp`. The difference is divided by 1000 and
      by 60, so the result counts minutes. */
  function MillisecondsUntilMidnight(nextMidnight: int, timestamp: int): (minutes: real)
    ensures minutes * 60000.0 == (nextMidnight - timestamp) as real
  {
    (nextMidnight - timestamp) as real / 1000.0 / 60.0
  }

  /** A later timestamp is closer to that midnight. */
  lemma MillisecondsUntilMidnightDecreasing(nextMidnight: int, t1: int, t2: int)
    requires t1 < t2
    ensures MillisecondsUntilMidnight(nextMidnight, t2) < MillisecondsUntilMidnight(nextMidnight, t1)
  {
  }
}
