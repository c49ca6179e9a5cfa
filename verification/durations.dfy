/** pandas Timedelta values, represented as an integer count of nanoseconds. */
module Durations {

  /** One day, in nanoseconds. */
  const Day: int := 86_400_000_000_000

  /** The 48-hour window of the NHS rule's creatinine change D. */
  const TwoDays: int := 2 * Day

  /** Upper bound of the band that compares against the lowest result. */
  const SevenDays: int := 7 * Day

  /** Upper bound of the band that compares against the median result. */
  const Year: int := 365 * Day

  /** `Timedelta.days`: the whole-day part of a duration, rounded towards minus infinity. */
  function WholeDays(d: int): (days: int)
    ensures days * Day <= d < (days + 1) * Day
  {
    d / Day
  }
}
