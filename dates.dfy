/**
 * Calendar dates as day numbers. A date is its proleptic Gregorian ordinal, as
 * Python's `date.toordinal()` gives it: 0001-01-01 is day 1 and 9999-12-31
 * (`date.max`) is the last representable day.
 */
module Dates {

  import Wrappers

  /** Ordinal of 9999-12-31, the largest date Python can represent. */
  const MaxOrdinal: int := 3652059

  type Date = d: int | 1 <= d <= MaxOrdinal witness 1

  /**
   * `d + timedelta(days=n)`: a date when the sum is still representable,
   * `None` where Python raises `OverflowError`.
   */
  function AddDays(d: Date, n: nat): (r: Wrappers.Option<Date>)
    ensures r.Some? <==> d + n <= MaxOrdinal
    ensures r.Some? ==> r.value - d == n
  {
    if d + n <= MaxOrdinal then Wrappers.Some(d + n) else Wrappers.None
  }
}
