/** `Display for DurationFlex`: the seconds are split greedily into weeks,
    days, hours, minutes and seconds, one `ser_component` call per unit, and
    each non-zero magnitude is written as the number followed by the unit
    letter. */
module Formatter {
  import opened Wrappers
  import opened Numeric
  import opened Decimal
  import opened Grammar
  import opened Flex

  /** The arithmetic of one `ser_component` call: the unit's magnitude,
      Rust's truncating `secs / span`, and the seconds left for the smaller
      units. The leftover keeps the sign of `secs` and is below one unit. */
  function SerStep(secs: int, span: int): (r: (int, int))
    requires span > 0
    ensures r.0 * span + r.1 == secs
    ensures secs >= 0 ==> r.0 >= 0 && 0 <= r.1 < span
    ensures secs < 0 ==> r.0 <= 0 && -span < r.1 <= 0
  {
    var value := TruncDiv(secs, span);
    (value, secs - value * span)
  }

  /** Five magnitudes, weeks first, with every smaller unit below the next
      larger one: at most 6 days, 23 hours, 59 minutes and 59 seconds. */
  predicate IsMixedRadix(m: seq<int>) {
    && |m| == |UNITS|
    && 0 <= m[0]
    && 0 <= m[1] < 7
    && 0 <= m[2] < 24
    && 0 <= m[3] < 60
    && 0 <= m[4] < 60
  }

  /** The magnitudes the five `ser_component` calls of `fmt` compute, weeks
      first; they add back up to `secs`. */
  function Decompose(secs: int): (m: seq<int>)
    ensures |m| == |UNITS| && Weighted(m) == secs
  {
    var weeks := SerStep(secs, SECS_PER_WEEK).0;
    var r0 := SerStep(secs, SECS_PER_WEEK).1;
    var days := SerStep(r0, SECS_PER_DAY).0;
    var r1 := SerStep(r0, SECS_PER_DAY).1;
    var hours := SerStep(r1, SECS_PER_HOUR).0;
    var r2 := SerStep(r1, SECS_PER_HOUR).1;
    var minutes := SerStep(r2, SECS_PER_MINUTE).0;
    var r3 := SerStep(r2, SECS_PER_MINUTE).1;
    var seconds := SerStep(r3, 1).0;
    [weeks, days, hours, minutes, seconds]
  }

  /** For a non-negative count the greedy magnitudes are its mixed-radix
      digits: days below 7, hours below 24, minutes and seconds below 60. */
  lemma DecomposeMixedRadix(secs: int)
    requires secs >= 0
    ensures IsMixedRadix(Decompose(secs))
  {
    var r0 := SerStep(secs, SECS_PER_WEEK).1;
    var r1 := SerStep(r0, SECS_PER_DAY).1;
    var r2 := SerStep(r1, SECS_PER_HOUR).1;
    var r3 := SerStep(r2, SECS_PER_MINUTE).1;
    assert 0 <= r0 < SECS_PER_WEEK && 0 <= r1 < SECS_PER_DAY;
    assert 0 <= r2 < SECS_PER_HOUR && 0 <= r3 < SECS_PER_MINUTE;
  }

  /** For a negative count, Rust's truncating division makes every
      magnitude zero or negative, each no larger in size than the positive
      digit would be. */
  lemma DecomposeNegative(secs: int)
    requires secs < 0
    ensures var m := Decompose(secs);
            m[0] <= 0 && -7 < m[1] <= 0 && -24 < m[2] <= 0 && -60 < m[3] <= 0 && -60 < m[4] <= 0
  {
    var r0 := SerStep(secs, SECS_PER_WEEK).1;
    var r1 := SerStep(r0, SECS_PER_DAY).1;
    var r2 := SerStep(r1, SECS_PER_HOUR).1;
    var r3 := SerStep(r2, SECS_PER_MINUTE).1;
    assert -SECS_PER_WEEK < r0 <= 0 && -SECS_PER_DAY < r1 <= 0;
    assert -SECS_PER_HOUR < r2 <= 0 && -SECS_PER_MINUTE < r3 <= 0;
  }

  /** What one `ser_component` call writes: nothing for a zero magnitude,
      otherwise the `{}` text of the magnitude and the unit letter. */
  function ComponentText(value: int, u: Unit): string {
    if value == 0 then "" else IntToString(value) + [Letter(u)]
  }

  /** The text written for the magnitudes of units `i`, `i + 1`, ... */
  function RenderFrom(m: seq<int>, i: nat): string
    requires i + |m| == |UNITS|
    decreases |m|
  {
    if m == [] then "" else ComponentText(m[0], UNITS[i]) + RenderFrom(m[1..], i + 1)
  }

  /** `format!("{}", d)`. The nanosecond part is never written. */
  function Format(d: DurationFlex): (text: string)
  {
    RenderFrom(Decompose(d.secs), 0)
  }

  /** The captures a canonical text has: a group exactly for each non-zero
      magnitude, written without leading zeros. */
  function CanonicalGroup(value: nat): (g: Option<string>)
    ensures IsNumeral(g)
  {
    if value == 0 then None else Some(NatToString(value))
  }

  function CanonicalCaptures(m: seq<int>): (c: Captures)
    requires IsMixedRadix(m)
    ensures |c| == |UNITS| && WellFormed(c)
    ensures forall k :: 0 <= k < |UNITS| ==> c[k] == CanonicalGroup(m[k])
  {
    [CanonicalGroup(m[0]), CanonicalGroup(m[1]), CanonicalGroup(m[2]), CanonicalGroup(m[3]),
     CanonicalGroup(m[4])]
  }

  lemma {:induction false} RenderFromSpells(m: seq<int>, c: Captures, i: nat)
    requires i + |m| == |UNITS| && |c| == |m|
    requires forall k :: 0 <= k < |m| ==> m[k] >= 0 && c[k] == CanonicalGroup(m[k])
    ensures RenderFrom(m, i) == SpellFrom(c, i)
    decreases |m|
  {
    if m != [] {
      RenderFromSpells(m[1..], c[1..], i + 1);
    }
  }

  /** The greedy split of a non-negative count is a mixed-radix
      decomposition, and the formatted text is the spelling of its non-zero
      digits in unit order, so it is a text of the grammar. */
  lemma FormatCanonical(d: DurationFlex)
    requires d.secs >= 0
    ensures var m := Decompose(d.secs);
            IsMixedRadix(m) && Weighted(m) == d.secs &&
            Format(d) == Spell(CanonicalCaptures(m)) &&
            Match(Format(d)) == Some(CanonicalCaptures(m))
  {
    var m := Decompose(d.secs);
    DecomposeMixedRadix(d.secs);
    var c := CanonicalCaptures(m);
    RenderFromSpells(m, c, 0);
    MatchCharacterised(Format(d), c);
  }

  /** Mixed-radix digits are unique: two canonical decompositions of the same
      count are the same decomposition, so the canonical text of a count is
      unique too. */
  lemma MixedRadixUnique(m: seq<int>, n: seq<int>)
    requires IsMixedRadix(m) && IsMixedRadix(n) && Weighted(m) == Weighted(n)
    ensures m == n
  {
    var a0, a1, a2, a3, a4 := m[0] - n[0], m[1] - n[1], m[2] - n[2], m[3] - n[3], m[4] - n[4];
    assert 60 * (10080 * a0 + 1440 * a1 + 60 * a2 + a3) + a4 == 0;
    assert a4 == 0;
    assert 60 * (168 * a0 + 24 * a1 + a2) + a3 == 0;
    assert a3 == 0;
    assert 24 * (7 * a0 + a1) + a2 == 0;
    assert a2 == 0;
    assert 7 * a0 + a1 == 0;
    assert a1 == 0;
  }

  /** Nothing is written exactly when every magnitude is zero. */
  lemma {:induction false} RenderEmptyIffZero(m: seq<int>, i: nat)
    requires i + |m| == |UNITS|
    ensures RenderFrom(m, i) == "" <==> forall k :: 0 <= k < |m| ==> m[k] == 0
    decreases |m|
  {
    if m != [] {
      RenderEmptyIffZero(m[1..], i + 1);
      assert forall k :: 1 <= k < |m| ==> m[k] == m[1..][k - 1];
    }
  }

  /** With no positive magnitude, whatever is written starts with a minus sign. */
  lemma {:induction false} RenderNegativeSign(m: seq<int>, i: nat)
    requires i + |m| == |UNITS| && forall k :: 0 <= k < |m| ==> m[k] <= 0
    ensures RenderFrom(m, i) != "" ==> RenderFrom(m, i)[0] == '-'
    decreases |m|
  {
    if m != [] && m[0] == 0 {
      RenderNegativeSign(m[1..], i + 1);
    }
  }

  /** Zero seconds split into five zero magnitudes. */
  lemma ZeroDecomposes()
    ensures Decompose(0) == [0, 0, 0, 0, 0]
  {
    DecomposeMixedRadix(0);
    MixedRadixUnique(Decompose(0), [0, 0, 0, 0, 0]);
  }

  /** Only zero seconds split into five zero magnitudes. */
  lemma AllZeroDecomposition(secs: int)
    requires forall k :: 0 <= k < |UNITS| ==> Decompose(secs)[k] == 0
    ensures secs == 0
  {
    var m := Decompose(secs);
    assert m[0] == 0 && m[1] == 0 && m[2] == 0 && m[3] == 0 && m[4] == 0;
  }

  /** The text is empty exactly when the count is zero seconds; in
      particular zero formats as the empty text, never as `0s`. */
  lemma FormatEmptyIffZero(d: DurationFlex)
    ensures Format(d) == "" <==> d.secs == 0
  {
    RenderEmptyIffZero(Decompose(d.secs), 0);
    if d.secs == 0 {
      ZeroDecomposes();
    } else if Format(d) == "" {
      AllZeroDecomposition(d.secs);
    }
  }

  /** A negative count formats with a leading minus sign. */
  lemma NegativeFormatSign(d: DurationFlex)
    requires d.secs < 0
    ensures |Format(d)| > 0 && Format(d)[0] == '-'
  {
    var m := Decompose(d.secs);
    DecomposeNegative(d.secs);
    forall k | 0 <= k < |m|
      ensures m[k] <= 0
    {
      assert k == 0 || k == 1 || k == 2 || k == 3 || k == 4;
    }
    FormatEmptyIffZero(d);
    RenderNegativeSign(m, 0);
  }

  /** The grammar has no sign, so the text of a negative count does not
      parse back: the parser answers `InvalidFormat`. */
  lemma NegativeFormatRejected(d: DurationFlex)
    requires d.secs < 0
    ensures Match(Format(d)) == None
  {
    var t := Format(d);
    NegativeFormatSign(d);
    assert !IsDigit(t[0]) && LetterRank(t[0]) == -1;
    AcceptedTextOrdered(t);
  }
}
