// A time of day as the timeline sees it: the day of the month and the seconds
// elapsed since that day's midnight. This stands in for Go's time.Time, of
// which the formatter only ever reads Day(), Hour(), Minute(), the duration
// since midnight, comparisons and Round(time.Hour).
module Times {

  const SecondsPerHour := 3600
  const SecondsPerDay := 86400

  type DayOfMonth = d: int | 1 <= d witness 1
  type DaySeconds = s: int | 0 <= s < 86400

  datatype Time = Time(day: DayOfMonth, sec: DaySeconds)

  /** Hour of the day, as Go's Time.Hour. */
  function Hour(t: Time): (h: int)
    ensures 0 <= h < 24
  {
    t.sec / 3600
  }

  /** Minute within the hour, as Go's Time.Minute. */
  function Minute(t: Time): (m: int)
    ensures 0 <= m < 60
  {
    t.sec % 3600 / 60
  }

  /** Hour, minute and the remaining seconds read the clock back: with their
      ranges this fixes both uniquely. */
  lemma ClockReading(t: Time)
    ensures t.sec == 3600 * Hour(t) + 60 * Minute(t) + t.sec % 60
  {
  }

  /** Position of t on one absolute time line, in seconds. */
  function Instant(t: Time): int
  {
    (t.day - 1) * 86400 + t.sec
  }

  /** Distinct times are distinct instants: the representation is canonical. */
  lemma InstantInjective(a: Time, b: Time)
    requires Instant(a) == Instant(b)
    ensures a == b
  {
  }

  /** Go's t.Round(time.Hour) for a zone whose offset is a whole number of
      hours: the nearest whole hour, halves rounding up, carrying into the
      next day at 24:00. */
  function RoundHour(t: Time): (r: Time)
    ensures r.sec % 3600 == 0
    ensures Instant(t) - 1800 < Instant(r) <= Instant(t) + 1800
  {
    var s := (t.sec + 1800) / 3600 * 3600;
    if s == 86400 then Time(t.day + 1, 0) else Time(t.day, s)
  }

  /** The test helper's clock reading h:m on the first day; 24:00 is the
      next day's midnight, as Go's time.Date normalises it. */
  function At(h: int, m: int): Time
    requires 0 <= h && 0 <= m < 60 && h * 60 + m <= 1440
  {
    var s := h * 3600 + m * 60;
    if s == 86400 then Time(2, 0) else Time(1, s)
  }
}
