/** The part of chrono's `TimeDelta` (exported as `Duration`) the library
    relies on. A `TimeDelta` is modelled by its value alone, a whole number of
    nanoseconds; chrono keeps it as seconds plus a normalised nanosecond part,
    which denotes the same number. Its range is plus or minus `i64::MAX`
    milliseconds, and every constructor and sum outside that range fails. */
module Chrono {
  import opened Wrappers
  import opened Numeric

  const NANOS_PER_MILLI: int := 1_000_000

  /** `TimeDelta::MAX` in nanoseconds; `TimeDelta::MIN` is its negation. */
  const MAX_NANOS: int := I64_MAX * NANOS_PER_MILLI

  /** The largest whole number of seconds a `TimeDelta` holds, `TimeDelta::MAX.secs`. */
  const MAX_SECS: int := I64_MAX / 1000

  datatype TimeDelta = TimeDelta(nanos: int)

  predicate Valid(d: TimeDelta) {
    -MAX_NANOS <= d.nanos <= MAX_NANOS
  }

  /** chrono's stored form of a `TimeDelta`: whole seconds, rounded down,
      and a nanosecond part in `[0, 10^9)`. */
  datatype Parts = Parts(secs: int, subsec: int)

  /** The stored form of a duration; it denotes the same nanoseconds. */
  function ToParts(d: TimeDelta): (p: Parts)
    ensures 0 <= p.subsec < NANOS_PER_SEC && p.secs * NANOS_PER_SEC + p.subsec == d.nanos
  {
    Parts(d.nanos / NANOS_PER_SEC, d.nanos % NANOS_PER_SEC)
  }

  /** `TimeDelta::MAX` and `TimeDelta::MIN` in stored form: plus and minus
      `i64::MAX` milliseconds. */
  const MAX_PARTS: Parts := Parts(MAX_SECS, 807_000_000)
  const MIN_PARTS: Parts := Parts(-MAX_SECS - 1, 193_000_000)

  /** `TimeDelta::new(secs, nanos)` with a normalised nanosecond part: the
      stored form is compared with `MIN` and `MAX` seconds first, and only
      durations inside the range are built. */
  function New(secs: int, subsec: int): (r: Option<TimeDelta>)
    requires 0 <= subsec < NANOS_PER_SEC
    ensures r.Some? <==> Valid(TimeDelta(secs * NANOS_PER_SEC + subsec))
    ensures r.Some? ==> r.value.nanos == secs * NANOS_PER_SEC + subsec
  {
    if || secs < MIN_PARTS.secs || secs > MAX_PARTS.secs
       || (secs == MAX_PARTS.secs && subsec > MAX_PARTS.subsec)
       || (secs == MIN_PARTS.secs && subsec < MIN_PARTS.subsec)
    then None
    else Some(TimeDelta(secs * NANOS_PER_SEC + subsec))
  }

  /** `TimeDelta::try_seconds`, which is `TimeDelta::new(secs, 0)`: `None`
      unless the seconds fit the range. */
  function TrySeconds(secs: i64): (r: Option<TimeDelta>)
    ensures r.Some? <==> -MAX_SECS <= secs <= MAX_SECS
    ensures r.Some? ==> Valid(r.value) && r.value.nanos == secs * NANOS_PER_SEC
  {
    New(secs, 0)
  }

  /** `TimeDelta::try_weeks`, `try_days`, `try_hours` and `try_minutes`:
      the count is multiplied by the unit's length with `checked_mul`, and the
      product goes to `try_seconds`. */
  function TryUnits(count: i64, unitSecs: i64): (r: Option<TimeDelta>)
    requires unitSecs > 0
    ensures r.Some? <==> -MAX_SECS <= count * unitSecs <= MAX_SECS
    ensures r.Some? ==> Valid(r.value) && r.value.nanos == count * unitSecs * NANOS_PER_SEC
  {
    match CheckedMul(count, unitSecs)
    case None => None
    case Some(secs) => TrySeconds(secs)
  }

  /** `TimeDelta::nanoseconds`: every `i64` count of nanoseconds is in range. */
  function Nanoseconds(n: i64): (d: TimeDelta)
    ensures Valid(d) && d.nanos == n
  {
    TimeDelta(n)
  }

  /** `TimeDelta::checked_add`: adds the stored forms, carries a whole
      second out of the nanosecond parts, and rebuilds with `TimeDelta::new`.
      It fails exactly when the sum leaves the range. */
  function CheckedAdd(a: TimeDelta, b: TimeDelta): (r: Option<TimeDelta>)
    requires Valid(a) && Valid(b)
    ensures r.Some? <==> Valid(TimeDelta(a.nanos + b.nanos))
    ensures r.Some? ==> r.value.nanos == a.nanos + b.nanos
  {
    var pa, pb := ToParts(a), ToParts(b);
    var secs, subsec := pa.secs + pb.secs, pa.subsec + pb.subsec;
    if subsec >= NANOS_PER_SEC then New(secs + 1, subsec - NANOS_PER_SEC) else New(secs, subsec)
  }

  /** `a + b`, which is `checked_add` followed by `expect`; the panic is the
      precondition. */
  function Add(a: TimeDelta, b: TimeDelta): (r: TimeDelta)
    requires Valid(a) && Valid(b) && Valid(TimeDelta(a.nanos + b.nanos))
    ensures Valid(r) && r.nanos == a.nanos + b.nanos
  {
    CheckedAdd(a, b).value
  }

  /** `TimeDelta::num_seconds`: whole seconds, rounded toward zero, so the
      dropped part has the sign of the duration and is under one second. */
  function NumSeconds(d: TimeDelta): (secs: i64)
    requires Valid(d)
    ensures d.nanos >= 0 ==> 0 <= d.nanos - secs * NANOS_PER_SEC < NANOS_PER_SEC
    ensures d.nanos < 0 ==> -NANOS_PER_SEC < d.nanos - secs * NANOS_PER_SEC <= 0
    ensures -MAX_SECS <= secs <= MAX_SECS
  {
    TruncDiv(d.nanos, NANOS_PER_SEC)
  }
}
