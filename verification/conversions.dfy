/** The `From` conversions between `DurationFlex` and chrono's `TimeDelta`
    and `std::time::Duration`. Conversions into `DurationFlex` keep whole
    seconds only; conversions out of it add the nanosecond part back. */
module Conversions {
  import opened Numeric
  import Chrono
  import StdTime
  import opened Flex

  /** `From<Duration> for DurationFlex`: `num_seconds`, which rounds toward
      zero, and a zero nanosecond part. The dropped fraction has the sign of
      the duration and is under one second. */
  function FromTimeDelta(d: Chrono.TimeDelta): (v: DurationFlex)
    requires Chrono.Valid(d)
    ensures v.nanos == 0
    ensures d.nanos >= 0 ==> 0 <= d.nanos - v.secs * NANOS_PER_SEC < NANOS_PER_SEC
    ensures d.nanos < 0 ==> -NANOS_PER_SEC < d.nanos - v.secs * NANOS_PER_SEC <= 0
  {
    DurationFlex(Chrono.NumSeconds(d), 0)
  }

  /** `From<DurationFlex> for Duration` does not panic: the seconds fit
      `try_seconds` (whose `unwrap` panics otherwise) and the sum with the
      nanoseconds stays in range (chrono's `+` panics otherwise). */
  predicate ToTimeDeltaDefined(v: DurationFlex) {
    && -Chrono.MAX_SECS <= v.secs <= Chrono.MAX_SECS
    && Chrono.Valid(Chrono.TimeDelta(v.secs * NANOS_PER_SEC + v.nanos))
  }

  /** `From<DurationFlex> for Duration`: the seconds plus the nanoseconds. */
  function ToTimeDelta(v: DurationFlex): (d: Chrono.TimeDelta)
    requires ToTimeDeltaDefined(v)
    ensures Chrono.Valid(d) && d.nanos == v.secs * NANOS_PER_SEC + v.nanos
  {
    var whole := Chrono.TrySeconds(v.secs);
    Chrono.Add(whole.value, Chrono.Nanoseconds(v.nanos))
  }

  /** `From<time::Duration> for DurationFlex`: `as_secs() as i64`, which
      wraps counts above `i64::MAX` to negatives, and a zero nanosecond part;
      the sub-second part of the std duration is dropped. */
  function FromStd(d: StdTime.StdDuration): (v: DurationFlex)
    ensures v.nanos == 0
    ensures d.secs <= I64_MAX ==> v.secs == d.secs
    ensures d.secs > I64_MAX ==> v.secs == d.secs - U64_MODULUS < 0
  {
    DurationFlex(U64AsI64(d.secs), 0)
  }

  /** The two std durations `From<DurationFlex> for time::Duration` adds. A
      negative field is cast with `as u64`, which wraps instead of panicking. */
  function StdParts(v: DurationFlex): (StdTime.StdDuration, StdTime.StdDuration) {
    (StdTime.FromSecs(I64AsU64(v.secs)), StdTime.FromNanos(I64AsU64(v.nanos)))
  }

  /** The std sum does not overflow its `u64` seconds (it panics when it does). */
  predicate ToStdDefined(v: DurationFlex) {
    StdTime.AddDefined(StdParts(v).0, StdParts(v).1)
  }

  /** `From<DurationFlex> for time::Duration`. For non-negative fields the
      result is exactly the seconds plus the nanoseconds; negative fields
      are taken modulo 2^64. */
  function ToStd(v: DurationFlex): (d: StdTime.StdDuration)
    requires ToStdDefined(v)
    ensures StdTime.Valid(d)
    ensures StdTime.TotalNanos(d) == I64AsU64(v.secs) * NANOS_PER_SEC + I64AsU64(v.nanos)
    ensures v.secs >= 0 && v.nanos >= 0 ==>
              StdTime.TotalNanos(d) == v.secs * NANOS_PER_SEC + v.nanos
  {
    StdTime.Add(StdParts(v).0, StdParts(v).1)
  }

  /** Whole seconds of a chrono duration survive the conversion to
      `DurationFlex`; only a `DurationFlex` with no nanosecond part comes
      back unchanged from a trip through chrono. */
  lemma TimeDeltaRoundTrip(v: DurationFlex)
    requires ToTimeDeltaDefined(v)
    ensures FromTimeDelta(ToTimeDelta(v)) == v <==> v.nanos == 0
  {
    if v.nanos == 0 {
      var d := ToTimeDelta(v);
      var s := FromTimeDelta(d).secs;
      assert d.nanos == v.secs * NANOS_PER_SEC;
      WholeMultipleQuotient(v.secs, s);
    }
  }

  /** If `s * 10^9` lies within one second of `n * 10^9`, then `s == n`. */
  lemma WholeMultipleQuotient(n: int, s: int)
    requires -NANOS_PER_SEC < n * NANOS_PER_SEC - s * NANOS_PER_SEC < NANOS_PER_SEC
    ensures s == n
  {
    var diff := n - s;
    assert n * NANOS_PER_SEC - s * NANOS_PER_SEC == diff * NANOS_PER_SEC;
  }

  /** Going through `DurationFlex` truncates a chrono duration toward zero to
      whole seconds, and the way back always succeeds; a whole number of
      seconds comes back exactly. */
  lemma TimeDeltaTruncation(d: Chrono.TimeDelta)
    requires Chrono.Valid(d)
    ensures ToTimeDeltaDefined(FromTimeDelta(d))
    ensures var back := ToTimeDelta(FromTimeDelta(d)).nanos;
            && (d.nanos >= 0 ==> 0 <= d.nanos - back < NANOS_PER_SEC)
            && (d.nanos < 0 ==> -NANOS_PER_SEC < d.nanos - back <= 0)
            && (d.nanos % NANOS_PER_SEC == 0 ==> back == d.nanos)
  {
    var v := FromTimeDelta(d);
    assert -Chrono.MAX_SECS <= v.secs <= Chrono.MAX_SECS;
    assert Chrono.Valid(Chrono.TimeDelta(v.secs * NANOS_PER_SEC));
    if d.nanos % NANOS_PER_SEC == 0 {
      var q := d.nanos / NANOS_PER_SEC;
      assert d.nanos == q * NANOS_PER_SEC;
      WholeMultipleQuotient(q, v.secs);
    }
  }

  /** A std duration comes back from `DurationFlex` with its whole seconds
      and without its sub-second part, for every `u64` second count: the
      wrap of `as i64` is undone by `as u64`. */
  lemma StdRoundTrip(d: StdTime.StdDuration)
    requires StdTime.Valid(d)
    ensures ToStdDefined(FromStd(d))
    ensures ToStd(FromStd(d)) == StdTime.StdDuration(d.secs, 0)
  {
    CastsInverse(d.secs, 0);
    assert StdParts(FromStd(d)).1 == StdTime.StdDuration(0, 0);
  }

  /** A `DurationFlex` comes back unchanged from a trip through std exactly
      when it has no nanosecond part, whatever the sign of its seconds. */
  lemma StdFlexRoundTrip(v: DurationFlex)
    requires ToStdDefined(v)
    ensures FromStd(ToStd(v)) == v <==> v.nanos == 0
  {
    if v.nanos == 0 {
      CastsInverse(0, v.secs);
      assert StdParts(v).1 == StdTime.StdDuration(0, 0);
      assert ToStd(v).secs == I64AsU64(v.secs);
    }
  }
}
