/** The part of `std::time::Duration` the library relies on: an unsigned
    whole-second count and a sub-second nanosecond part below one second. */
module StdTime {
  import opened Numeric

  datatype StdDuration = StdDuration(secs: u64, subsecNanos: nat)

  predicate Valid(d: StdDuration) {
    d.subsecNanos < NANOS_PER_SEC
  }

  function TotalNanos(d: StdDuration): nat {
    d.secs * NANOS_PER_SEC + d.subsecNanos
  }

  /** `Duration::from_secs`. */
  function FromSecs(secs: u64): (d: StdDuration)
    ensures Valid(d) && TotalNanos(d) == secs * NANOS_PER_SEC
  {
    StdDuration(secs, 0)
  }

  /** `Duration::from_nanos`: splits the count into seconds and a remainder. */
  function FromNanos(nanos: u64): (d: StdDuration)
    ensures Valid(d) && TotalNanos(d) == nanos
  {
    StdDuration(nanos / NANOS_PER_SEC, nanos % NANOS_PER_SEC)
  }

  /** The sum `a + b` does not overflow the `u64` seconds (it panics when it does). */
  predicate AddDefined(a: StdDuration, b: StdDuration) {
    a.secs + b.secs + (if a.subsecNanos + b.subsecNanos >= NANOS_PER_SEC then 1 else 0) < U64_MODULUS
  }

  /** `a + b`: adds the seconds and carries a whole second out of the
      nanosecond parts. */
  function Add(a: StdDuration, b: StdDuration): (r: StdDuration)
    requires Valid(a) && Valid(b) && AddDefined(a, b)
    ensures Valid(r) && TotalNanos(r) == TotalNanos(a) + TotalNanos(b)
  {
    var nanos := a.subsecNanos + b.subsecNanos;
    if nanos >= NANOS_PER_SEC then StdDuration(a.secs + b.secs + 1, nanos - NANOS_PER_SEC)
    else StdDuration(a.secs + b.secs, nanos)
  }
}
