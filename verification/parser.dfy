/** `TryFrom<&str> for DurationFlex`: match the grammar, turn each present
    group into a chrono duration of its unit, and sum the five durations. */
module Parser {
  import opened Wrappers
  import opened Numeric
  import opened Decimal
  import opened Grammar
  import opened Chrono
  import opened Flex

  /** The count a capture denotes; an absent group counts as 0 (`map_or(0, ..)`). */
  function Magnitude(g: Option<string>): nat
    requires IsNumeral(g)
  {
    match g
    case None => 0
    case Some(digits) => Value(digits)
  }

  /** The five counts of well-formed captures, weeks first. */
  function Magnitudes(c: Captures): (m: seq<nat>)
    requires |c| == |UNITS| && WellFormed(c)
    ensures |m| == |UNITS|
    ensures forall k :: 0 <= k < |UNITS| ==> m[k] == Magnitude(c[k])
  {
    [Magnitude(c[0]), Magnitude(c[1]), Magnitude(c[2]), Magnitude(c[3]), Magnitude(c[4])]
  }

  /** The total the text denotes: each count times its unit's seconds. */
  function TotalSeconds(c: Captures): nat
    requires |c| == |UNITS| && WellFormed(c)
  {
    Weighted(Magnitudes(c))
  }

  /** `Duration::try_weeks(n)` ... `Duration::try_seconds(n)` for unit `u`;
      the seconds unit calls `try_seconds` directly. */
  function TryUnit(u: Unit, count: i64): (r: Option<TimeDelta>)
    ensures r.Some? <==> -MAX_SECS <= count * Span(u) <= MAX_SECS
    ensures r.Some? ==> Valid(r.value) && r.value.nanos == count * Span(u) * NANOS_PER_SEC
  {
    if u == Second then TrySeconds(count) else TryUnits(count, Span(u))
  }

  /** The conversions from unit `i` on reach no panic: `de_component`
      unwraps `parse::<i64>`, which fails for a count above `i64::MAX`, and a
      unit is only parsed when the units before it were in range. */
  predicate ComponentsDefined(c: Captures, i: nat)
    requires |c| == |UNITS| && WellFormed(c) && i <= |UNITS|
    decreases |UNITS| - i
  {
    i == |UNITS| ||
    (Magnitude(c[i]) <= I64_MAX &&
     (TryUnit(UNITS[i], Magnitude(c[i])).Some? ==> ComponentsDefined(c, i + 1)))
  }

  /** The unit durations from unit `i` on, in order, each count times unit
      length; the first unit whose seconds are out of range ends the parse
      with `OutOfRange`. */
  function Components(c: Captures, i: nat): (r: Result<seq<TimeDelta>, DurationFlexError>)
    requires |c| == |UNITS| && WellFormed(c) && i <= |UNITS| && ComponentsDefined(c, i)
    ensures r.Failure? ==> r.error == OutOfRange
    ensures r.Success? <==> forall k :: i <= k < |UNITS| ==> Magnitude(c[k]) * Span(UNITS[k]) <= MAX_SECS
    ensures r.Success? ==> UnitValues(c, i, r.value)
    decreases |UNITS| - i
  {
    if i == |UNITS| then Success([])
    else
      match TryUnit(UNITS[i], Magnitude(c[i]))
      case None =>
        assert Magnitude(c[i]) * Span(UNITS[i]) >= 0;
        Failure(OutOfRange)
      case Some(d) =>
        match Components(c, i + 1)
        case Failure(e) => Failure(e)
        case Success(rest) =>
          ConsUnitValues(c, i, d, rest);
          Success([d] + rest)
  }

  /** `ds` holds one duration per unit from `i` on, each count times unit
      length in nanoseconds. */
  predicate UnitValues(c: Captures, i: nat, ds: seq<TimeDelta>)
    requires |c| == |UNITS| && WellFormed(c) && i <= |UNITS|
  {
    && |ds| + i == |UNITS|
    && forall k :: 0 <= k < |ds| ==> ds[k].nanos == Magnitude(c[i + k]) * Span(UNITS[i + k]) * NANOS_PER_SEC
  }

  lemma ConsUnitValues(c: Captures, i: nat, d: TimeDelta, rest: seq<TimeDelta>)
    requires |c| == |UNITS| && WellFormed(c) && i < |UNITS|
    requires d.nanos == Magnitude(c[i]) * Span(UNITS[i]) * NANOS_PER_SEC && UnitValues(c, i + 1, rest)
    ensures UnitValues(c, i, [d] + rest)
  {
    assert forall k :: 1 <= k < |[d] + rest| ==> ([d] + rest)[k] == rest[k - 1];
  }

  /** `try_from(s)` reaches no panic: no unwrap of an oversized count, and
      no overflow in the chrono sum of the five unit durations. */
  predicate ParseDefined(s: string) {
    match Match(s)
    case None => true
    case Some(c) =>
      ComponentsDefined(c, 0) && (Components(c, 0).Success? ==> TotalSeconds(c) <= MAX_SECS)
  }

  /** `DurationFlex::try_from(s)` (and `from_str`). The result is decided by
      the grammar and the counts alone: `InvalidFormat` exactly when the text
      does not match, `OutOfRange` exactly when some unit's seconds exceed
      the chrono bound, and otherwise the weighted sum of the counts with no
      nanoseconds. */
  function TryFrom(s: string): (r: Result<DurationFlex, DurationFlexError>)
    requires ParseDefined(s)
    ensures r == Failure(InvalidFormat) <==> Match(s).None?
    ensures r == Failure(OutOfRange) <==>
              Match(s).Some? &&
              exists k :: 0 <= k < |UNITS| && Magnitude(Match(s).value[k]) * Span(UNITS[k]) > MAX_SECS
    ensures r.Success? ==>
              Match(s).Some? && r.value == DurationFlex(TotalSeconds(Match(s).value), 0)
    ensures r.Success? ==> 0 <= r.value.secs <= MAX_SECS && r.value.nanos == 0
  {
    match Match(s)
    case None => Failure(InvalidFormat)
    case Some(c) =>
      match Components(c, 0)
      case Failure(e) => Failure(e)
      case Success(ds) =>
        SumOfComponents(c, ds);
        var t1 := Add(ds[0], ds[1]);
        var t2 := Add(t1, ds[2]);
        var t3 := Add(t2, ds[3]);
        var total := Add(t3, ds[4]);
        Success(DurationFlex(NumSeconds(total), 0))
  }

  /** The five unit durations add up, in nanoseconds, to the weighted sum of
      the counts, and every partial sum is non-negative. */
  lemma SumOfComponents(c: Captures, ds: seq<TimeDelta>)
    requires |c| == |UNITS| && WellFormed(c) && ComponentsDefined(c, 0)
    requires Components(c, 0) == Success(ds)
    ensures |ds| == |UNITS|
    ensures forall k :: 0 <= k < |UNITS| ==> ds[k].nanos >= 0
    ensures ds[0].nanos + ds[1].nanos + ds[2].nanos + ds[3].nanos + ds[4].nanos
            == TotalSeconds(c) * NANOS_PER_SEC
  {
    var m := Magnitudes(c);
    var w, d, h, mi, sec := m[0] * SECS_PER_WEEK, m[1] * SECS_PER_DAY, m[2] * SECS_PER_HOUR,
                            m[3] * SECS_PER_MINUTE, m[4];
    assert w >= 0 && d >= 0 && h >= 0 && mi >= 0 && sec >= 0;
    assert ds[0].nanos == w * NANOS_PER_SEC && ds[1].nanos == d * NANOS_PER_SEC;
    assert ds[2].nanos == h * NANOS_PER_SEC && ds[3].nanos == mi * NANOS_PER_SEC;
    assert ds[4].nanos == sec * NANOS_PER_SEC;
    forall k | 0 <= k < |UNITS|
      ensures ds[k].nanos >= 0
    {
      assert k == 0 || k == 1 || k == 2 || k == 3 || k == 4;
    }
    assert TotalSeconds(c) == w + d + h + mi + sec;
    ScaleSum(w, d, h, mi, sec, NANOS_PER_SEC);
  }

  /** Scaling distributes over a sum of five terms. */
  lemma ScaleSum(a: int, b: int, c: int, d: int, e: int, f: int)
    ensures (a + b + c + d + e) * f == a * f + b * f + c * f + d * f + e * f
  {
  }

  /** Counts within the chrono bound never reach a panic. */
  lemma {:induction false} SmallCountsDefined(c: Captures, i: nat)
    requires |c| == |UNITS| && WellFormed(c) && i <= |UNITS|
    requires forall k :: i <= k < |UNITS| ==> Magnitude(c[k]) <= I64_MAX
    ensures ComponentsDefined(c, i)
    decreases |UNITS| - i
  {
    if i < |UNITS| {
      SmallCountsDefined(c, i + 1);
    }
  }

  /** Within a total inside the chrono bound, every unit is inside it too. */
  lemma UnitsWithinTotal(c: Captures)
    requires |c| == |UNITS| && WellFormed(c) && TotalSeconds(c) <= MAX_SECS
    ensures forall k :: 0 <= k < |UNITS| ==>
              Magnitude(c[k]) <= I64_MAX && Magnitude(c[k]) * Span(UNITS[k]) <= MAX_SECS
  {
    forall k | 0 <= k < |UNITS|
      ensures Magnitude(c[k]) <= I64_MAX && Magnitude(c[k]) * Span(UNITS[k]) <= MAX_SECS
    {
      assert k == 0 || k == 1 || k == 2 || k == 3 || k == 4;
    }
  }

  /** Every text of the grammar whose total is within the chrono bound
      parses, to its weighted sum of counts. */
  lemma SpelledParses(c: Captures)
    requires |c| == |UNITS| && WellFormed(c) && TotalSeconds(c) <= MAX_SECS
    ensures ParseDefined(Spell(c))
    ensures TryFrom(Spell(c)) == Success(DurationFlex(TotalSeconds(c), 0))
  {
    var s := Spell(c);
    MatchCharacterised(s, c);
    assert Match(s) == Some(c);
    UnitsWithinTotal(c);
    SmallCountsDefined(c, 0);
    assert Components(c, 0).Success?;
    assert ParseDefined(s);
    assert !exists k :: 0 <= k < |UNITS| && Magnitude(c[k]) * Span(UNITS[k]) > MAX_SECS;
    assert TryFrom(s).Success?;
  }

  /** The empty text parses to zero seconds. */
  lemma EmptyParsesToZero()
    ensures ParseDefined("") && TryFrom("") == Success(DurationFlex(0, 0))
  {
    var none: Captures := [None, None, None, None, None];
    assert WellFormed(none) by {
      forall k | 0 <= k < |none|
        ensures IsNumeral(none[k])
      {
      }
    }
    assert Magnitudes(none) == [0, 0, 0, 0, 0];
    SpellGroups(none);
    SpelledParses(none);
  }
}
