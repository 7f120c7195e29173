/** The library's value type and its error type. */
module Flex {
  import opened Numeric

  /** Seconds per unit, `SECS_PER_MINUTES` ... `SECS_PER_WEEK`. */
  const SECS_PER_MINUTE: int := 60
  const SECS_PER_HOUR: int := 3600     // 60 minutes
  const SECS_PER_DAY: int := 86400     // 24 hours
  const SECS_PER_WEEK: int := 604800   // 7 days

  /** The literals above are the products the library writes out. */
  lemma UnitConstants()
    ensures SECS_PER_HOUR == 60 * SECS_PER_MINUTE && SECS_PER_DAY == 24 * SECS_PER_HOUR
    ensures SECS_PER_WEEK == 7 * SECS_PER_DAY
  {
  }

  /** Errors of the text parser. */
  datatype DurationFlexError =
    | InvalidFormat  // the text does not match the grammar, e.g. `1y`
    | OutOfRange     // a unit's seconds do not fit a chrono duration

  /** Whole seconds and a nanosecond part, with the Rust field widths. */
  datatype DurationFlex = DurationFlex(secs: i64, nanos: i32)
}
