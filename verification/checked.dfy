/** Two ways `try_from` panics instead of answering `OutOfRange`: a count
    above `i64::MAX` makes the `unwrap` in `de_component` panic, and units
    that are each in range but add up past the chrono bound make the chrono
    `+` panic. `TryFromChecked` is the parser with both cases answered by
    `OutOfRange`; it agrees with `TryFrom` wherever `TryFrom` does not panic. */
module CheckedParse {
  import opened Wrappers
  import opened Numeric
  import opened Decimal
  import opened Grammar
  import opened Chrono
  import opened Flex
  import opened Parser

  /** The parser with every out-of-range total reported as `OutOfRange`. */
  function TryFromChecked(s: string): (r: Result<DurationFlex, DurationFlexError>)
    ensures r == Failure(InvalidFormat) <==> Match(s).None?
    ensures r.Success? <==> Match(s).Some? && TotalSeconds(Match(s).value) <= MAX_SECS
    ensures r.Success? ==> r.value == DurationFlex(TotalSeconds(Match(s).value), 0)
  {
    match Match(s)
    case None => Failure(InvalidFormat)
    case Some(c) =>
      var total := TotalSeconds(c);
      if total <= MAX_SECS then Success(DurationFlex(total, 0)) else Failure(OutOfRange)
  }

  /** Wherever `try_from` does not panic, it gives the checked parser's answer. */
  lemma CheckedAgrees(s: string)
    requires ParseDefined(s)
    ensures TryFromChecked(s) == TryFrom(s)
  {
    match Match(s)
    case None =>
    case Some(c) =>
      if Components(c, 0).Failure? {
        var k :| 0 <= k < |UNITS| && Magnitude(c[k]) * Span(UNITS[k]) > MAX_SECS;
        UnitBelowTotal(c, k);
      }
  }

  /** Each unit's seconds are at most the total. */
  lemma UnitBelowTotal(c: Captures, k: nat)
    requires |c| == |UNITS| && WellFormed(c) && k < |UNITS|
    ensures Magnitude(c[k]) * Span(UNITS[k]) <= TotalSeconds(c)
  {
    assert k == 0 || k == 1 || k == 2 || k == 3 || k == 4;
  }

  /** The text of a single group. */
  lemma SingleGroupMatches(digits: string, u: Unit, k: nat)
    requires |digits| > 0 && IsDigits(digits) && k < |UNITS| && UNITS[k] == u
    ensures var c := seq(|UNITS|, j requires 0 <= j < |UNITS| => if j == k then Some(digits) else None);
            Match(digits + [Letter(u)]) == Some(c)
  {
    var c := seq(|UNITS|, j requires 0 <= j < |UNITS| => if j == k then Some(digits) else None);
    assert WellFormed(c) by {
      forall j | 0 <= j < |c|
        ensures IsNumeral(c[j])
      {
      }
    }
    SpellGroups(c);
    assert k == 0 || k == 1 || k == 2 || k == 3 || k == 4;
    MatchCharacterised(digits + [Letter(u)], c);
  }

  /** `9223372036854775808w` matches the pattern, but its count does not fit
      an `i64`, so `de_component` panics where `OutOfRange` was due. */
  lemma OversizedCountPanics()
    ensures var s := NatToString(I64_MAX + 1) + "w";
            Match(s).Some? && !ParseDefined(s) && TryFromChecked(s) == Failure(OutOfRange)
  {
    var digits := NatToString(I64_MAX + 1);
    var s := digits + "w";
    SingleGroupMatches(digits, Week, 0);
    var c := Match(s).value;
    assert c[0] == Some(digits);
    ValueOfNatToString(I64_MAX + 1);
    assert Magnitude(c[0]) == I64_MAX + 1;
    assert !ComponentsDefined(c, 0);
    UnitBelowTotal(c, 0);
  }

  /** A count is at most its seconds, units being at least one second long. */
  lemma MultipleAtLeast(a: nat, b: int)
    requires b >= 1
    ensures a * b >= a
  {
    assert a * b - a == a * (b - 1);
  }

  /** Units that are each within the chrono bound but add up past it make a
      text that matches, panics in `try_from`, and is `OutOfRange` when checked. */
  lemma OverflowingSum(c: Captures)
    requires |c| == |UNITS| && WellFormed(c) && TotalSeconds(c) > MAX_SECS
    requires forall k :: 0 <= k < |UNITS| ==> Magnitude(c[k]) * Span(UNITS[k]) <= MAX_SECS
    ensures Match(Spell(c)) == Some(c) && !ParseDefined(Spell(c))
    ensures TryFromChecked(Spell(c)) == Failure(OutOfRange)
  {
    MatchCharacterised(Spell(c), c);
    forall k | 0 <= k < |UNITS|
      ensures Magnitude(c[k]) <= I64_MAX
    {
      MultipleAtLeast(Magnitude(c[k]), Span(UNITS[k]));
    }
    SmallCountsDefined(c, 0);
    assert Components(c, 0).Success?;
  }

  /** `1m9223372036854775s`: each unit is within the chrono bound, so every
      `try_*` call succeeds, but the sum of the units is not, and the chrono
      `+` panics where `OutOfRange` was due. */
  lemma SumOverflowPanics()
    ensures var s := "1m" + NatToString(MAX_SECS) + "s";
            Match(s).Some? && !ParseDefined(s) && TryFromChecked(s) == Failure(OutOfRange)
  {
    var digits := NatToString(MAX_SECS);
    var c: Captures := [None, None, None, Some("1"), Some(digits)];
    assert WellFormed(c) by {
      forall j | 0 <= j < |c|
        ensures IsNumeral(c[j])
      {
        assert j == 0 || j == 1 || j == 2 || j == 3 || j == 4;
      }
    }
    SpellGroups(c);
    assert Spell(c) == "1m" + digits + "s";
    ValueOfNatToString(MAX_SECS);
    assert Value("1") == 1;
    assert Magnitudes(c) == [0, 0, 0, 1, MAX_SECS];
    forall k | 0 <= k < |UNITS|
      ensures Magnitude(c[k]) * Span(UNITS[k]) <= MAX_SECS
    {
      assert k == 0 || k == 1 || k == 2 || k == 3 || k == 4;
    }
    OverflowingSum(c);
  }
}
