/** How the parser and the formatter fit together: formatting is a right
    inverse of parsing on the chrono range, parsing then formatting
    normalises a text to its canonical form, and the examples of the
    library's unit tests. */
module RoundTrip {
  import opened Wrappers
  import opened Numeric
  import opened Decimal
  import opened Grammar
  import opened Chrono
  import opened Flex
  import opened Parser
  import opened Formatter
  import Conversions
  import StdTime

  /** The counts read back from a canonical text are the digits it was
      written from. */
  lemma CanonicalMagnitudes(m: seq<int>)
    requires IsMixedRadix(m)
    ensures Magnitudes(CanonicalCaptures(m)) == m
  {
    var c := CanonicalCaptures(m);
    forall k | 0 <= k < |UNITS|
      ensures Magnitude(c[k]) == m[k]
    {
      if m[k] != 0 {
        ValueOfNatToString(m[k]);
      }
    }
  }

  /** Every whole-second value within the chrono range formats to a text
      that parses back to the same value. */
  lemma FormatThenParse(d: DurationFlex)
    requires 0 <= d.secs <= MAX_SECS && d.nanos == 0
    ensures ParseDefined(Format(d))
    ensures TryFrom(Format(d)) == Success(d)
  {
    var m := Decompose(d.secs);
    FormatCanonical(d);
    var c := CanonicalCaptures(m);
    CanonicalMagnitudes(m);
    assert TotalSeconds(c) == d.secs;
    SpelledParses(c);
  }

  /** Normalising a text (parse, then format) gives a text that parses to
      the same value and that normalising leaves unchanged: `1w8d3h4m5s` and
      its normal form `2w1d3h4m5s` denote the same value, and the normal form
      is a fixed point. */
  lemma ParseThenFormat(s: string)
    requires ParseDefined(s) && TryFrom(s).Success?
    ensures var t := Format(TryFrom(s).value);
            && ParseDefined(t) && TryFrom(t) == TryFrom(s)
            && Format(TryFrom(t).value) == t
  {
    FormatThenParse(TryFrom(s).value);
  }

  /** A text that is already canonical (mixed-radix counts, no zero group,
      no leading zero) is reproduced exactly by parsing and formatting. */
  lemma CanonicalTextIsFixedPoint(m: seq<int>)
    requires IsMixedRadix(m) && Weighted(m) <= MAX_SECS
    ensures var s := Spell(CanonicalCaptures(m));
            ParseDefined(s) && TryFrom(s).Success? && Format(TryFrom(s).value) == s
  {
    var c := CanonicalCaptures(m);
    CanonicalMagnitudes(m);
    SpelledParses(c);
    var v := TryFrom(Spell(c)).value;
    assert v.secs == Weighted(m);
    FormatCanonical(v);
    MixedRadixUnique(Decompose(v.secs), m);
  }

  /** Two canonical texts that parse to the same value are the same text. */
  lemma CanonicalTextUnique(m: seq<int>, n: seq<int>)
    requires IsMixedRadix(m) && IsMixedRadix(n) && Weighted(m) == Weighted(n)
    ensures Spell(CanonicalCaptures(m)) == Spell(CanonicalCaptures(n))
  {
    MixedRadixUnique(m, n);
  }

  /** Parsing a text of the grammar, given its captures and its total. */
  lemma ParseExample(s: string, w: Option<string>, d: Option<string>, h: Option<string>,
                     mi: Option<string>, sec: Option<string>, total: nat)
    requires IsNumeral(w) && IsNumeral(d) && IsNumeral(h) && IsNumeral(mi) && IsNumeral(sec)
    requires s == Group(w, Week) + Group(d, Day) + Group(h, Hour) + Group(mi, Minute) + Group(sec, Second)
    requires Weighted([Magnitude(w), Magnitude(d), Magnitude(h), Magnitude(mi), Magnitude(sec)]) == total
    requires total <= MAX_SECS
    ensures ParseDefined(s) && TryFrom(s) == Success(DurationFlex(total, 0))
  {
    var c: Captures := [w, d, h, mi, sec];
    assert WellFormed(c) by {
      forall k | 0 <= k < |c|
        ensures IsNumeral(c[k])
      {
        assert k == 0 || k == 1 || k == 2 || k == 3 || k == 4;
      }
    }
    assert Magnitudes(c) == [Magnitude(w), Magnitude(d), Magnitude(h), Magnitude(mi), Magnitude(sec)];
    SpellGroups(c);
    SpelledParses(c);
  }

  /** Formatting a value, given the canonical digits of its seconds. */
  lemma FormatExample(secs: nat, m: seq<int>, text: string)
    requires IsMixedRadix(m) && Weighted(m) == secs <= MAX_SECS
    requires var c := CanonicalCaptures(m);
             text == Group(c[0], Week) + Group(c[1], Day) + Group(c[2], Hour) +
                     Group(c[3], Minute) + Group(c[4], Second)
    ensures Format(DurationFlex(secs, 0)) == text
  {
    SpellGroups(CanonicalCaptures(m));
    FormatCanonical(DurationFlex(secs, 0));
    DecomposeMixedRadix(secs);
    MixedRadixUnique(Decompose(secs), m);
  }

  /** `1w2d` is nine days (`de_string`). */
  lemma ParseWeeksDays()
    ensures ParseDefined("1w2d") && TryFrom("1w2d") == Success(DurationFlex(9 * SECS_PER_DAY, 0))
  {
    assert Value("1") == 1 && Value("2") == 2;
    ParseExample("1w2d", Some("1"), Some("2"), None, None, None, 9 * SECS_PER_DAY);
  }

  /** Nine days format as `1w2d` (`ser_string`). */
  lemma FormatWeeksDays()
    ensures Format(DurationFlex(9 * SECS_PER_DAY, 0)) == "1w2d"
  {
    var g := CanonicalCaptures([1, 2, 0, 0, 0]);
    assert g[0] == Some("1") && g[1] == Some("2") && g[2] == None && g[3] == None && g[4] == None;
    FormatExample(9 * SECS_PER_DAY, [1, 2, 0, 0, 0], "1w2d");
  }

  /** All five units: `1w2d3h4m5s` (`de_string`). */
  lemma ParseAllUnits()
    ensures ParseDefined("1w2d3h4m5s") &&
            TryFrom("1w2d3h4m5s") ==
              Success(DurationFlex(9 * SECS_PER_DAY + 3 * SECS_PER_HOUR + 4 * SECS_PER_MINUTE + 5, 0))
  {
    assert Value("1") == 1 && Value("2") == 2 && Value("3") == 3 && Value("4") == 4 && Value("5") == 5;
    ParseExample("1w2d3h4m5s", Some("1"), Some("2"), Some("3"), Some("4"), Some("5"), 788645);
  }

  /** `1w2d3h4m5s` is already canonical and formats back unchanged (`ser_string`). */
  lemma FormatAllUnits()
    ensures Format(DurationFlex(9 * SECS_PER_DAY + 3 * SECS_PER_HOUR + 4 * SECS_PER_MINUTE + 5, 0))
            == "1w2d3h4m5s"
  {
    var g := CanonicalCaptures([1, 2, 3, 4, 5]);
    assert g[0] == Some("1") && g[1] == Some("2") && g[2] == Some("3") && g[3] == Some("4") && g[4] == Some("5");
    FormatExample(788645, [1, 2, 3, 4, 5], "1w2d3h4m5s");
  }

  /** A lone seconds group: `5s` is five seconds (`de_string`). */
  lemma ParseSeconds()
    ensures ParseDefined("5s") && TryFrom("5s") == Success(DurationFlex(5, 0))
  {
    assert Value("5") == 5;
    ParseExample("5s", None, None, None, None, Some("5"), 5);
  }

  /** Five seconds format as `5s` (`ser_string`). */
  lemma FormatSeconds()
    ensures Format(DurationFlex(5, 0)) == "5s"
  {
    var g := CanonicalCaptures([0, 0, 0, 0, 5]);
    assert g[0] == None && g[1] == None && g[2] == None && g[3] == None && g[4] == Some("5");
    FormatExample(5, [0, 0, 0, 0, 5], "5s");
  }

  /** Units out of order and unknown units are an `InvalidFormat` error
      (`de_string`, and the documented `1y`). */
  lemma ParseRejected()
    ensures ParseDefined("5s5d") && TryFrom("5s5d") == Failure(InvalidFormat)
    ensures ParseDefined("1y") && TryFrom("1y") == Failure(InvalidFormat)
  {
    MisorderedRejected();
  }

  /** The empty text is zero seconds, and zero seconds format as the empty text. */
  lemma EmptyRoundTrip()
    ensures ParseDefined("") && TryFrom("") == Success(DurationFlex(0, 0))
    ensures Format(DurationFlex(0, 0)) == ""
  {
    EmptyParsesToZero();
    FormatEmptyIffZero(DurationFlex(0, 0));
  }

  /** `1w8d3h4m5s` is 1307045 seconds (`ser_string`). */
  lemma ParseDayRollover()
    ensures ParseDefined("1w8d3h4m5s") && TryFrom("1w8d3h4m5s") == Success(DurationFlex(1307045, 0))
  {
    assert Value("1") == 1 && Value("8") == 8 && Value("3") == 3 && Value("4") == 4 && Value("5") == 5;
    ParseExample("1w8d3h4m5s", Some("1"), Some("8"), Some("3"), Some("4"), Some("5"), 1307045);
  }

  /** Eight days roll over into a week: 1307045 seconds format as `2w1d3h4m5s`. */
  lemma FormatDayRollover()
    ensures Format(DurationFlex(1307045, 0)) == "2w1d3h4m5s"
  {
    var g := CanonicalCaptures([2, 1, 3, 4, 5]);
    assert g[0] == Some("2") && g[1] == Some("1") && g[2] == Some("3") && g[3] == Some("4") && g[4] == Some("5");
    FormatExample(1307045, [2, 1, 3, 4, 5], "2w1d3h4m5s");
  }

  /** The seconds count of `1w8d3h4m3605s`, read digit by digit. */
  lemma SecondsCount()
    ensures Magnitude(Some("3605")) == 3605
  {
    assert "3605"[..3] == "360" && "360"[..2] == "36" && "36"[..1] == "3";
    assert Value("3605") == 3605;
  }

  /** `1w8d3h4m3605s` is 1310645 seconds (`ser_string`). */
  lemma ParseSecondRollover()
    ensures ParseDefined("1w8d3h4m3605s") && TryFrom("1w8d3h4m3605s") == Success(DurationFlex(1310645, 0))
  {
    assert Value("1") == 1 && Value("8") == 8 && Value("3") == 3 && Value("4") == 4;
    SecondsCount();
    assert Group(Some("1"), Week) == "1w" && Group(Some("8"), Day) == "8d" && Group(Some("3"), Hour) == "3h";
    assert Group(Some("4"), Minute) == "4m" && Group(Some("3605"), Second) == "3605s";
    assert "1w8d3h4m3605s" == "1w" + "8d" + "3h" + "4m" + "3605s";
    ParseExample("1w8d3h4m3605s", Some("1"), Some("8"), Some("3"), Some("4"), Some("3605"), 1310645);
  }

  /** 3605 seconds roll over into an hour: 1310645 seconds format as `2w1d4h4m5s`. */
  lemma FormatSecondRollover()
    ensures Format(DurationFlex(1310645, 0)) == "2w1d4h4m5s"
  {
    var g := CanonicalCaptures([2, 1, 4, 4, 5]);
    assert g[0] == Some("2") && g[1] == Some("1") && g[2] == Some("4") && g[3] == Some("4") && g[4] == Some("5");
    FormatExample(1310645, [2, 1, 4, 4, 5], "2w1d4h4m5s");
  }

  /** A parsed value converts to chrono and to std without panicking, and
      the chrono duration is the text's total in nanoseconds. */
  lemma ParsedConverts(s: string)
    requires ParseDefined(s) && TryFrom(s).Success?
    ensures var v := TryFrom(s).value;
            && Conversions.ToTimeDeltaDefined(v)
            && Conversions.ToTimeDelta(v).nanos == TotalSeconds(Match(s).value) * NANOS_PER_SEC
            && Conversions.ToStdDefined(v)
            && StdTime.TotalNanos(Conversions.ToStd(v)) == v.secs * NANOS_PER_SEC
  {
    var v := TryFrom(s).value;
    assert 0 <= v.secs <= MAX_SECS && v.nanos == 0;
    assert Conversions.StdParts(v).1 == StdTime.StdDuration(0, 0);
  }

  /** A non-negative chrono duration, converted and formatted, parses back
      to its whole seconds. */
  lemma ChronoFormatParse(d: TimeDelta)
    requires Valid(d) && d.nanos >= 0
    ensures var v := Conversions.FromTimeDelta(d);
            ParseDefined(Format(v)) && TryFrom(Format(v)) == Success(v)
  {
    FormatThenParse(Conversions.FromTimeDelta(d));
  }

  /** One week from chrono formats as `1w` (`in_struct`). */
  lemma OneWeekFromChrono()
    ensures TryUnits(1, SECS_PER_WEEK).Some?
    ensures Format(Conversions.FromTimeDelta(TryUnits(1, SECS_PER_WEEK).value)) == "1w"
  {
    var d := TryUnits(1, SECS_PER_WEEK).value;
    var v := Conversions.FromTimeDelta(d);
    assert d.nanos == SECS_PER_WEEK * NANOS_PER_SEC;
    Conversions.WholeMultipleQuotient(SECS_PER_WEEK, v.secs);
    var g := CanonicalCaptures([1, 0, 0, 0, 0]);
    assert g[0] == Some("1") && g[1] == None && g[2] == None && g[3] == None && g[4] == None;
    FormatExample(SECS_PER_WEEK, [1, 0, 0, 0, 0], "1w");
  }
}
