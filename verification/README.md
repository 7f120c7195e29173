# duration-flex in Dafny

A model of the Rust crate `duration-flex`, whose `DurationFlex` value holds a
duration as whole seconds (`i64`) plus a nanosecond part (`i32`) and reads
and writes it as compact text such as `1w2d3h4m5s`: weeks, days, hours,
minutes and seconds, each an optional group of digits followed by its unit
letter, always in that order.

The model covers:

- the unit constants (`SECS_PER_MINUTES` … `SECS_PER_WEEK`);
- the anchored pattern `^((\d+)w)?((\d+)d)?((\d+)h)?((\d+)m)?((\d+)s)?$`, as a
  hand-written matcher proved equivalent to the set of texts the pattern
  describes (`Grammar`);
- the parser `TryFrom<&str>` (`Parser.TryFrom`). Each count is converted with
  chrono's `try_weeks` … `try_seconds`, the five unit durations are added with
  chrono's `+`, and the result keeps `num_seconds()` and no nanoseconds;
- the formatter `Display::fmt` with `ser_component` (`Formatter.Format`). It
  makes five greedy truncating divisions and writes every non-zero quotient
  followed by its letter;
- the four `From` conversions to and from chrono's `Duration` (`TimeDelta`)
  and `std::time::Duration` (`Conversions`);
- the unit tests `de_string`, `ser_string` and `in_struct`, as lemmas about
  concrete inputs (`RoundTrip`).

Modules, in dependency order:

| file | module | contents |
|---|---|---|
| wrappers.dfy | Wrappers | `Option`, `Result` |
| numeric.dfy | Numeric | Rust integer widths, truncating `/`, `checked_mul`, `as` casts |
| decimal.dfy | Decimal | ASCII digit runs: `parse::<i64>` and the `{}` text of an integer |
| grammar.dfy | Grammar | units, the pattern, the matcher and its characterisation |
| chrono.dfy | Chrono | the part of chrono's `TimeDelta` the library uses |
| stdtime.dfy | StdTime | the part of `std::time::Duration` the library uses |
| flex.dfy | Flex | `DurationFlex` and `DurationFlexError` |
| parser.dfy | Parser | `try_from` |
| formatter.dfy | Formatter | `fmt` and `ser_component` |
| conversions.dfy | Conversions | the `From` impls |
| roundtrip.dfy | RoundTrip | parse/format round trips, the unit-test examples |
| checked.dfy | CheckedParse | the parser with its two panics replaced by `OutOfRange` |

How Rust and the libraries are represented:

- **Integers.** Integers are unbounded. The `i64`/`i32`/`u64` widths are
  subset types. `checked_mul`, the truncating `/` and the wrapping `as` casts
  are written out.
- **chrono durations.** A chrono `TimeDelta` is its total number of
  nanoseconds. It is valid within plus or minus `i64::MAX` milliseconds.
  chrono itself stores whole seconds and a nanosecond part in `[0, 10^9)`;
  `TimeDelta::new` and `checked_add` are written on that stored form
  (`Chrono.ToParts`, `Chrono.New`, `Chrono.CheckedAdd`) and proved to agree
  with the total. chrono's source is not part of this model; these follow
  chrono 0.4's definitions.
- **Panics.** A panic becomes a precondition that states exactly when the
  code does not panic: `ParseDefined`, `ToTimeDeltaDefined`, `ToStdDefined`.
  The precondition covers the `unwrap` of an oversized count, chrono's `+`
  overflowing, the `unwrap` of `try_seconds`, and the std `+` overflowing.

Two conversions lose or reinterpret information, and the model does what
the code does:

- `From<time::Duration>` writes `nanos: 0i32` (src/lib.rs:206), so the
  sub-second part of the std duration is dropped.
- `From<DurationFlex> for time::Duration` casts both fields with `as u64`
  (src/lib.rs:212). A negative field wraps to a value at or above 2^63; the
  conversion panics only when the std `+` overflows.

## Model

| member | source | states |
|---|---|---|
| Grammar.Span | src/lib.rs:50-53 | each unit's length in seconds is positive and at most one week |
| Flex.UnitConstants | src/lib.rs:50-53 | an hour is 60 minutes, a day 24 hours, a week 7 days |
| Numeric.TruncDiv | src/lib.rs:113-115 | Rust's `/` rounds toward zero: the remainder has the dividend's sign and is smaller than the divisor, and so is the quotient's sign |
| Numeric.CheckedMul | src/lib.rs:168-175 | `checked_mul`, computed as the two's-complement wrapped product plus an overflow test, is `None` exactly when the true product leaves `i64`, otherwise it is the true product |
| Numeric.U64AsI64 | src/lib.rs:204-208 | `as i64` on a `u64` keeps the value or subtracts 2^64 |
| Numeric.I64AsU64 | src/lib.rs:210-214 | `as u64` on an `i64` keeps the value or adds 2^64 |
| Numeric.CastsInverse | src/lib.rs:204-214 | the two casts undo each other |
| Decimal.NatToString | src/lib.rs:120 | the `{}` text of a natural number is a non-empty digit run with no leading zero unless it is `0` |
| Decimal.IntToString | src/lib.rs:120 | the `{}` text of an integer is a digit run exactly when it is non-negative, with a minus sign otherwise |
| Decimal.ValueOfNatToString | src/lib.rs:109-111 | `parse` reads the written text of a number back as the number |
| Grammar.LetterRank | src/lib.rs:93-94 | a unit letter names its position in the fixed unit order, and no digit is a unit letter |
| Grammar.RankOfLetter | src/lib.rs:93-94 | the letter of the unit at position `i` has rank `i` |
| Grammar.SpellGroups | src/lib.rs:93-94 | the text of five captures is the week, day, hour, minute and second groups in that order |
| Grammar.DigitRun | src/lib.rs:93-94 | `\d+` takes the longest digit prefix: everything it takes is a digit, and the next character is not |
| Grammar.Match | src/lib.rs:93-94 | a match yields five well-formed captures whose spelling is the whole text |
| Grammar.MatchFromSound | src/lib.rs:93-94 | whatever the matcher returns is well formed and spells the input back |
| Grammar.MatchTakesPresent | src/lib.rs:93-94 | digits followed by the current unit's letter are taken as that unit's group |
| Grammar.MatchSkipsAbsent | src/lib.rs:93-94 | a text whose first letter belongs to a later unit leaves the current group absent |
| Grammar.MatchFromComplete | src/lib.rs:93-94 | the matcher recovers exactly the captures a text was spelled from |
| Grammar.MatchCharacterised | src/lib.rs:93-94 | the pattern matches a text with captures `c` if and only if the text is the spelling of `c` |
| Grammar.AcceptedTextOrdered | src/lib.rs:93-94 | every accepted text consists of digits and unit letters, ends in a letter, has a digit right before each letter, and has its letters strictly in the order w, d, h, m, s |
| Grammar.CountlessLetterRejected | src/lib.rs:93-94 | a unit letter without digits before it (`w`, `1wd`) does not match |
| Grammar.EmptyMatches | src/lib.rs:93-94 | the empty text matches with no group present |
| Grammar.MisorderedRejected | src/lib.rs:336-337 | `5s5d`, `1s1s` and `1y` do not match |
| Chrono.ToParts | src/lib.rs:180 | chrono's stored form (whole seconds and a nanosecond part in `[0, 10^9)`) denotes the same number of nanoseconds |
| Chrono.New | src/lib.rs:176-177 | `TimeDelta::new`'s range test, done on seconds first and then the nanosecond part against `MIN` and `MAX`, accepts exactly the durations within plus or minus `i64::MAX` milliseconds |
| Chrono.TrySeconds | src/lib.rs:176-177 | `try_seconds` succeeds exactly within plus or minus `i64::MAX / 1000` seconds, with the seconds as nanoseconds |
| Chrono.TryUnits | src/lib.rs:168-175 | `try_weeks` … `try_minutes` succeed exactly when count times unit length is within the seconds bound |
| Chrono.Nanoseconds | src/lib.rs:200 | `Duration::nanoseconds` of an `i64` is always in range and denotes that many nanoseconds |
| Chrono.CheckedAdd | src/lib.rs:180 | `checked_add`, which adds the stored forms with a carry out of the nanosecond parts, denotes the sum and fails exactly when the sum leaves plus or minus `i64::MAX` milliseconds |
| Chrono.Add | src/lib.rs:180 | chrono's `+` (`checked_add` then `expect`) gives the sum of the two durations whenever that sum is in range |
| Chrono.NumSeconds | src/lib.rs:194 | `num_seconds` rounds toward zero: the dropped part has the duration's sign, is under one second, and the seconds stay within the bound |
| StdTime.FromSecs | src/lib.rs:212 | `from_secs` denotes that many seconds |
| StdTime.FromNanos | src/lib.rs:212 | `from_nanos` denotes that many nanoseconds, with a normalised sub-second part |
| StdTime.Add | src/lib.rs:212 | the std `+` adds the totals and keeps the sub-second part below one second |
| Parser.TryUnit | src/lib.rs:168-177 | the chrono conversion of one unit succeeds exactly when that unit's seconds are within the bound |
| Parser.Components | src/lib.rs:168-177 | the unit conversions fail only with `OutOfRange`, succeed exactly when every unit's seconds are within the bound, and then give one duration per unit, in unit order, each count times unit length |
| Parser.TryFrom | src/lib.rs:163-184 | `try_from` and `from_str`: `InvalidFormat` if and only if the pattern does not match; `OutOfRange` if and only if some unit's seconds exceed the bound; otherwise the weighted sum of the counts, non-negative and with no nanoseconds |
| Parser.SumOfComponents | src/lib.rs:180 | the five unit durations are non-negative and add up to the weighted sum in nanoseconds |
| Parser.SmallCountsDefined | src/lib.rs:109-111 | counts that fit `i64` never reach the `unwrap` panic |
| Parser.UnitsWithinTotal | src/lib.rs:168-177 | when the total is within the bound, so is every unit |
| Parser.SpelledParses | src/lib.rs:163-184 | every text of the grammar whose total is within the bound parses, without panic, to that total |
| Parser.EmptyParsesToZero | src/lib.rs:163-184 | the empty text parses to zero seconds |
| Formatter.SerStep | src/lib.rs:113-115 | one `ser_component` step: magnitude times span plus the leftover is the input, and the leftover is below one span with the input's sign |
| Formatter.Decompose | src/lib.rs:216-225 | the five magnitudes add back up to the seconds |
| Formatter.DecomposeMixedRadix | src/lib.rs:216-225 | for non-negative seconds the magnitudes are mixed-radix digits: under 7 days, 24 hours, 60 minutes, 60 seconds |
| Formatter.DecomposeNegative | src/lib.rs:216-225 | for negative seconds every magnitude is zero or negative and smaller in size than the next unit |
| Formatter.CanonicalCaptures | src/lib.rs:117-121 | the captures of a canonical text are well formed, with a group exactly for each non-zero magnitude |
| Formatter.RenderFromSpells | src/lib.rs:117-121 | writing non-negative magnitudes spells their canonical captures |
| Formatter.FormatCanonical | src/lib.rs:216-225 | a non-negative value's text is the spelling of its mixed-radix digits, and the pattern matches it with exactly those captures |
| Formatter.MixedRadixUnique | src/lib.rs:50-53 | two mixed-radix decompositions of the same seconds are equal |
| Formatter.RenderEmptyIffZero | src/lib.rs:117-121 | nothing is written if and only if every magnitude is zero |
| Formatter.RenderNegativeSign | src/lib.rs:117-121 | with no positive magnitude, any written text starts with `-` |
| Formatter.ZeroDecomposes | src/lib.rs:216-225 | zero seconds give five zero magnitudes |
| Formatter.AllZeroDecomposition | src/lib.rs:216-225 | only zero seconds give five zero magnitudes |
| Formatter.FormatEmptyIffZero | src/lib.rs:216-225 | the text is empty if and only if the value is zero seconds (never `0s`) |
| Formatter.NegativeFormatSign | src/lib.rs:216-225 | a negative value's text starts with `-` |
| Formatter.NegativeFormatRejected | src/lib.rs:216-225 | a negative value's text does not match the pattern |
| Conversions.FromTimeDelta | src/lib.rs:192-196 | `From<Duration>` keeps the seconds rounded toward zero and no nanoseconds |
| Conversions.ToTimeDelta | src/lib.rs:198-202 | `From<DurationFlex> for Duration` denotes seconds times 10^9 plus nanoseconds |
| Conversions.FromStd | src/lib.rs:204-208 | `From<time::Duration>` keeps the whole seconds, wraps those above `i64::MAX` negative, and drops the sub-second part |
| Conversions.ToStd | src/lib.rs:210-214 | `From<DurationFlex> for time::Duration` denotes the wrapped seconds times 10^9 plus the wrapped nanoseconds, and exactly the value when both fields are non-negative |
| Conversions.TimeDeltaRoundTrip | src/lib.rs:192-202 | a value comes back unchanged from chrono if and only if it has no nanosecond part |
| Conversions.WholeMultipleQuotient | src/lib.rs:194 | whole seconds within one second of each other are equal |
| Conversions.TimeDeltaTruncation | src/lib.rs:192-202 | a chrono duration comes back truncated toward zero to whole seconds, exactly when it is whole |
| Conversions.StdRoundTrip | src/lib.rs:204-214 | a std duration comes back with its whole seconds and no sub-second part, for every `u64` second count |
| Conversions.StdFlexRoundTrip | src/lib.rs:204-214 | a value comes back unchanged from std if and only if it has no nanosecond part |
| RoundTrip.CanonicalMagnitudes | src/lib.rs:109-111 | reading a canonical text gives back its digits |
| RoundTrip.FormatThenParse | src/lib.rs:216-225 | every whole-second value from zero to the bound formats to a text that parses back to it |
| RoundTrip.ParseThenFormat | src/lib.rs:341-355 | normalising an accepted text (parse, then format) gives a text that parses to the same value and is itself left unchanged by normalising |
| RoundTrip.CanonicalTextIsFixedPoint | src/lib.rs:341-346 | a canonical text is reproduced exactly by parsing then formatting |
| RoundTrip.CanonicalTextUnique | src/lib.rs:216-225 | equal totals have the same canonical text |
| RoundTrip.ParseExample | src/lib.rs:163-184 | a text given group by group parses to its total |
| RoundTrip.FormatExample | src/lib.rs:216-225 | a value formats to the text of its canonical digits |
| RoundTrip.ParseWeeksDays | src/lib.rs:324-326 | `1w2d` is 9 days |
| RoundTrip.FormatWeeksDays | src/lib.rs:342-343 | 9 days format as `1w2d` |
| RoundTrip.ParseAllUnits | src/lib.rs:328-330 | `1w2d3h4m5s` is 9 days, 3 hours, 4 minutes and 5 seconds |
| RoundTrip.FormatAllUnits | src/lib.rs:345-346 | that value formats as `1w2d3h4m5s` |
| RoundTrip.ParseSeconds | src/lib.rs:332-334 | `5s` is 5 seconds |
| RoundTrip.FormatSeconds | src/lib.rs:348-349 | 5 seconds format as `5s` |
| RoundTrip.ParseRejected | src/lib.rs:336-337 | `5s5d` and `1y` are `InvalidFormat` |
| RoundTrip.EmptyRoundTrip | src/lib.rs:163-184 | the empty text is zero seconds, and zero formats as the empty text |
| RoundTrip.ParseDayRollover | src/lib.rs:351 | `1w8d3h4m5s` is 1307045 seconds |
| RoundTrip.FormatDayRollover | src/lib.rs:351-352 | 1307045 seconds format as `2w1d3h4m5s` |
| RoundTrip.ParseSecondRollover | src/lib.rs:354 | `1w8d3h4m3605s` is 1310645 seconds |
| RoundTrip.FormatSecondRollover | src/lib.rs:354-355 | 1310645 seconds format as `2w1d4h4m5s` |
| RoundTrip.ParsedConverts | src/lib.rs:198-214 | a parsed value converts to chrono and to std without panic, to its total |
| RoundTrip.ChronoFormatParse | src/lib.rs:192-196 | a non-negative chrono duration, converted and formatted, parses back to its whole seconds |
| RoundTrip.OneWeekFromChrono | src/lib.rs:395-407 | one week from chrono formats as `1w` |
| CheckedParse.TryFromChecked | src/lib.rs:163-184 | the parser as intended: `InvalidFormat` if and only if no match; success if and only if the total is within the bound, to that total |
| CheckedParse.CheckedAgrees | src/lib.rs:163-184 | wherever `try_from` does not panic, it gives the checked parser's answer |
| CheckedParse.UnitBelowTotal | src/lib.rs:168-180 | each unit's seconds are at most the total |
| CheckedParse.SingleGroupMatches | src/lib.rs:93-94 | a single group matches with that one capture present |
| CheckedParse.OversizedCountPanics | src/lib.rs:109-111 | `9223372036854775808w` matches but panics in `de_component`; the checked parser says `OutOfRange` |
| CheckedParse.OverflowingSum | src/lib.rs:180 | units each within the bound whose total is not make a matching text that panics in `try_from` and is `OutOfRange` when checked |
| CheckedParse.SumOverflowPanics | src/lib.rs:180 | `1m9223372036854775s` passes every unit check but panics in chrono's `+`; the checked parser says `OutOfRange` |

## Left out

- `Sub<Duration>`, `Add<Duration>` and the `DateTime` additions (src/lib.rs:125-161): these are plain chrono arithmetic, outside the text format.
- The serde `Deserialize`/`Serialize` impls (src/lib.rs:228-290) and the `deserialize_nums` and `serialize` tests: they only pass the text through `try_from` and `Display`.
- The clap `OsStr` conversions (src/lib.rs:293-304): they call `try_from(...).unwrap()` and `format!`, so they are `Parser.TryFrom` with success as a precondition and `Formatter.Format`. `FromStr` (src/lib.rs:306-312) is `try_from` itself and is modelled by `Parser.TryFrom`.
- `From<String>` (src/lib.rs:186-190): it is `try_from(...).unwrap()`, so it is `Parser.TryFrom` with success as a precondition.
- The accessors `secs()` and `nanos()` (src/lib.rs:99-107): they are the datatype's fields.
- The regular-expression engine and its lazy initialisation: replaced by the matcher in `Grammar`, which is proved to accept exactly the texts the pattern describes.
- Grammar.Match: Rust's `\d` also matches non-ASCII decimal digits, which then make `parse::<i64>` fail and `unwrap` panic. The model accepts ASCII digits only, so such texts are `InvalidFormat` here instead of a panic.
- Formatter.Format: the `fmt::Result` of a failing writer is not modelled; the text is produced in full.
- Panics: `try_from`, `From<DurationFlex> for Duration` and `From<DurationFlex> for time::Duration` take their no-panic conditions as preconditions (`ParseDefined`, `ToTimeDeltaDefined`, `ToStdDefined`) rather than modelling unwinding.

## Findings

| source | as written | input that shows it | evidently intended | confidence | as-written member | corrected member |
|---|---|---|---|---|---|---|
| src/lib.rs:109-111 | `de_component` unwraps `parse::<i64>`, so a matched count above `i64::MAX` panics inside `try_from` | `9223372036854775808w` | `try_from` returns `OutOfRange` | high, not executed | CheckedParse.OversizedCountPanics | CheckedParse.TryFromChecked |
| src/lib.rs:180 | the five unit durations are added with chrono's panicking `+`; each unit can be in range while their sum is not | `1m9223372036854775s` | `try_from` returns `OutOfRange` | high, not executed | CheckedParse.SumOverflowPanics | CheckedParse.TryFromChecked |
