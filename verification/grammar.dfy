/** The textual grammar of a duration, the anchored pattern
    `^((\d+)w)?((\d+)d)?((\d+)h)?((\d+)m)?((\d+)s)?$`: five optional groups
    in a fixed order, each a run of digits followed by its unit letter. The
    matcher below is written by hand in place of the regular expression and
    returns the same five captures. */
module Grammar {
  import opened Wrappers
  import opened Decimal
  import opened Flex


  datatype Unit = Week | Day | Hour | Minute | Second

  /** The units in the one order the grammar admits, largest first. */
  const UNITS: seq<Unit> := [Week, Day, Hour, Minute, Second]

  function Letter(u: Unit): char {
    match u
    case Week => 'w'
    case Day => 'd'
    case Hour => 'h'
    case Minute => 'm'
    case Second => 's'
  }

  /** Length of one unit in seconds. */
  function Span(u: Unit): (secs: int)
    ensures 0 < secs <= SECS_PER_WEEK
  {
    match u
    case Week => SECS_PER_WEEK
    case Day => SECS_PER_DAY
    case Hour => SECS_PER_HOUR
    case Minute => SECS_PER_MINUTE
    case Second => 1
  }

  /** Position in `UNITS` of the unit a letter names, or -1 for any other character. */
  function LetterRank(c: char): (k: int)
    ensures -1 <= k < |UNITS|
    ensures k >= 0 ==> Letter(UNITS[k]) == c && !IsDigit(c)
  {
    match c
    case 'w' => 0
    case 'd' => 1
    case 'h' => 2
    case 'm' => 3
    case 's' => 4
    case _ => -1
  }

  lemma RankOfLetter(i: nat)
    requires i < |UNITS|
    ensures LetterRank(Letter(UNITS[i])) == i
  {
  }

  /** The seconds that five unit magnitudes, weeks first, add up to. */
  function Weighted(m: seq<int>): int
    requires |m| == |UNITS|
  {
    m[0] * SECS_PER_WEEK + m[1] * SECS_PER_DAY + m[2] * SECS_PER_HOUR + m[3] * SECS_PER_MINUTE + m[4]
  }

  /** What the pattern captured: one slot per unit, in `UNITS` order, holding
      the digit run of that unit's group when the group is present. */
  type Captures = seq<Option<string>>

  /** A present group is a non-empty run of digits, as `\d+` demands. */
  predicate IsNumeral(g: Option<string>) {
    g.Some? ==> |g.value| > 0 && IsDigits(g.value)
  }

  predicate WellFormed(c: Captures) {
    forall k :: 0 <= k < |c| ==> IsNumeral(c[k])
  }

  /** The text of one optional group. */
  function Group(g: Option<string>, u: Unit): string {
    match g
    case None => ""
    case Some(digits) => digits + [Letter(u)]
  }

  /** The text of the groups for the units from position `i` of `UNITS` on. */
  function SpellFrom(c: Captures, i: nat): string
    requires i + |c| == |UNITS|
    decreases |c|
  {
    if c == [] then "" else Group(c[0], UNITS[i]) + SpellFrom(c[1..], i + 1)
  }

  /** The one text that yields the captures `c`. */
  function Spell(c: Captures): string
    requires |c| == |UNITS|
  {
    SpellFrom(c, 0)
  }

  /** The spelling of five captures, group by group. */
  lemma SpellGroups(c: Captures)
    requires |c| == |UNITS|
    ensures Spell(c) == Group(c[0], Week) + Group(c[1], Day) + Group(c[2], Hour) +
                        Group(c[3], Minute) + Group(c[4], Second)
  {
    var c1, c2, c3, c4 := c[1..], c[2..], c[3..], c[4..];
    assert c1[1..] == c2 && c2[1..] == c3 && c3[1..] == c4 && c4[1..] == [];
    assert SpellFrom(c4, 4) == Group(c[4], Second);
    assert SpellFrom(c3, 3) == Group(c[3], Minute) + Group(c[4], Second);
    assert SpellFrom(c2, 2) == Group(c[2], Hour) + SpellFrom(c3, 3);
    assert SpellFrom(c1, 1) == Group(c[1], Day) + SpellFrom(c2, 2);
  }

  /** Length of the longest run of digits at the start of `s`. */
  function DigitRun(s: string): (n: nat)
    ensures n <= |s| && IsDigits(s[..n])
    ensures n < |s| ==> !IsDigit(s[n])
  {
    if s == [] || !IsDigit(s[0]) then 0
    else
      var n := 1 + DigitRun(s[1..]);
      assert s[..n] == [s[0]] + s[1..][..n - 1];
      n
  }

  /** Matches the groups for units `i`, `i + 1`, ... against all of `s`. A
      group is present exactly when `s` starts with digits followed by the
      group's letter: a shorter digit prefix is followed by a digit, which no
      group accepts, so the pattern has no other choice. */
  function MatchFrom(s: string, i: nat): Option<Captures>
    requires i <= |UNITS|
    decreases |UNITS| - i
  {
    if i == |UNITS| then
      if s == "" then Some([]) else None
    else
      var n := DigitRun(s);
      if 0 < n < |s| && s[n] == Letter(UNITS[i]) then
        match MatchFrom(s[n + 1..], i + 1)
        case None => None
        case Some(rest) => Some([Some(s[..n])] + rest)
      else
        match MatchFrom(s, i + 1)
        case None => None
        case Some(rest) => Some([None] + rest)
  }

  /** `REGEX.captures(s)`: the five captures, or `None` when `s` does not
      match. What it returns is well formed and spells `s` back. */
  function Match(s: string): (r: Option<Captures>)
    ensures r.Some? ==> |r.value| == |UNITS| && WellFormed(r.value) && Spell(r.value) == s
  {
    MatchFromSound(s, 0);
    MatchFrom(s, 0)
  }

  lemma {:induction false} DigitRunOfGroup(d: string, letter: char, rest: string)
    requires IsDigits(d) && !IsDigit(letter)
    ensures DigitRun(d + [letter] + rest) == |d|
    decreases |d|
  {
    var t := d + [letter] + rest;
    if d != [] {
      assert t[1..] == d[1..] + [letter] + rest;
      DigitRunOfGroup(d[1..], letter, rest);
    }
  }

  /** A non-empty spelled text starts with digits, and the letter after them
      belongs to a unit at position `i` or later. */
  lemma {:induction false} SpellFromStart(c: Captures, i: nat)
    requires i + |c| == |UNITS| && WellFormed(c)
    ensures var t := SpellFrom(c, i);
            t != "" ==> 0 < DigitRun(t) < |t| && i <= LetterRank(t[DigitRun(t)])
    decreases |c|
  {
    if c != [] {
      var rest := SpellFrom(c[1..], i + 1);
      WellFormedTail(c);
      SpellFromStart(c[1..], i + 1);
      match c[0]
      case None =>
        assert SpellFrom(c, i) == rest;
      case Some(d) =>
        DigitRunOfGroup(d, Letter(UNITS[i]), rest);
        RankOfLetter(i);
        assert SpellFrom(c, i) == d + [Letter(UNITS[i])] + rest;
    }
  }

  lemma WellFormedTail(c: Captures)
    requires c != [] && WellFormed(c)
    ensures WellFormed(c[1..])
  {
    forall k | 0 <= k < |c[1..]|
      ensures IsNumeral(c[1..][k])
    {
      assert c[1..][k] == c[k + 1];
    }
  }

  /** A text whose first letter belongs to a later unit skips unit `i`. */
  lemma MatchSkipsAbsent(t: string, i: nat, tail: Captures)
    requires i < |UNITS| && MatchFrom(t, i + 1) == Some(tail)
    requires t != "" ==> 0 < DigitRun(t) < |t| && i + 1 <= LetterRank(t[DigitRun(t)])
    ensures MatchFrom(t, i) == Some([None] + tail)
  {
    RankOfLetter(i);
  }

  /** Digits followed by the letter of unit `i` are taken as that unit's group. */
  lemma MatchTakesPresent(d: string, i: nat, rest: string, tail: Captures)
    requires |d| > 0 && IsDigits(d) && i < |UNITS| && MatchFrom(rest, i + 1) == Some(tail)
    ensures MatchFrom(d + [Letter(UNITS[i])] + rest, i) == Some([Some(d)] + tail)
  {
    var t := d + [Letter(UNITS[i])] + rest;
    DigitRunOfGroup(d, Letter(UNITS[i]), rest);
    assert t[..|d|] == d;
    assert t[|d| + 1..] == rest;
  }

  /** Completeness: the matcher recognises every spelled text and recovers
      exactly the captures it was spelled from. */
  lemma {:induction false} MatchFromComplete(c: Captures, i: nat)
    requires i + |c| == |UNITS| && WellFormed(c)
    ensures MatchFrom(SpellFrom(c, i), i) == Some(c)
    decreases |c|
  {
    if c != [] {
      var rest := SpellFrom(c[1..], i + 1);
      WellFormedTail(c);
      MatchFromComplete(c[1..], i + 1);
      assert c == [c[0]] + c[1..];
      match c[0]
      case None =>
        SpellFromStart(c[1..], i + 1);
        assert SpellFrom(c, i) == rest;
        MatchSkipsAbsent(rest, i, c[1..]);
      case Some(d) =>
        assert IsNumeral(c[0]);
        assert SpellFrom(c, i) == d + [Letter(UNITS[i])] + rest;
        MatchTakesPresent(d, i, rest, c[1..]);
    }
  }

  lemma WellFormedCons(g: Option<string>, c: Captures)
    requires IsNumeral(g) && WellFormed(c)
    ensures WellFormed([g] + c)
  {
    var r := [g] + c;
    forall k | 0 <= k < |r|
      ensures IsNumeral(r[k])
    {
      if k > 0 {
        assert r[k] == c[k - 1];
      }
    }
  }

  /** One present group in front of a sound tail spells the whole input. */
  lemma SpellPresentGroup(s: string, i: nat, n: nat, tail: Captures)
    requires i < |UNITS| && 0 < n < |s| && IsDigits(s[..n]) && s[n] == Letter(UNITS[i])
    requires |tail| + i + 1 == |UNITS| && WellFormed(tail) && SpellFrom(tail, i + 1) == s[n + 1..]
    ensures var r := [Some(s[..n])] + tail;
            WellFormed(r) && SpellFrom(r, i) == s
  {
    var r := [Some(s[..n])] + tail;
    assert r[1..] == tail;
    WellFormedCons(Some(s[..n]), tail);
    assert s == s[..n] + [Letter(UNITS[i])] + s[n + 1..];
  }

  lemma SpellAbsentGroup(s: string, i: nat, tail: Captures)
    requires i < |UNITS|
    requires |tail| + i + 1 == |UNITS| && WellFormed(tail) && SpellFrom(tail, i + 1) == s
    ensures var r := [None] + tail;
            WellFormed(r) && SpellFrom(r, i) == s
  {
    var r := [None] + tail;
    assert r[1..] == tail;
    WellFormedCons(None, tail);
  }

  /** What the matcher returns from unit `i` on is well formed and spells
      the input back exactly. */
  predicate SpellsBack(s: string, i: nat)
    requires i <= |UNITS|
  {
    var r := MatchFrom(s, i);
    r.Some? ==> |r.value| + i == |UNITS| && WellFormed(r.value) && SpellFrom(r.value, i) == s
  }

  /** One unfolding of the matcher where unit `i`'s group is present. */
  lemma MatchFromPresent(s: string, i: nat, n: nat)
    requires i < |UNITS| && n == DigitRun(s) && 0 < n < |s| && s[n] == Letter(UNITS[i])
    ensures MatchFrom(s[n + 1..], i + 1).None? ==> MatchFrom(s, i).None?
    ensures MatchFrom(s[n + 1..], i + 1).Some? ==>
              MatchFrom(s, i) == Some([Some(s[..n])] + MatchFrom(s[n + 1..], i + 1).value)
  {
  }

  lemma SoundPresentStep(s: string, i: nat, n: nat)
    requires i < |UNITS| && n == DigitRun(s) && 0 < n < |s| && s[n] == Letter(UNITS[i])
    requires SpellsBack(s[n + 1..], i + 1)
    ensures SpellsBack(s, i)
  {
    var tail := MatchFrom(s[n + 1..], i + 1);
    MatchFromPresent(s, i, n);
    if tail.Some? {
      SpellPresentGroup(s, i, n, tail.value);
    }
  }

  lemma SoundAbsentStep(s: string, i: nat)
    requires i < |UNITS| && !(0 < DigitRun(s) < |s| && s[DigitRun(s)] == Letter(UNITS[i]))
    requires SpellsBack(s, i + 1)
    ensures SpellsBack(s, i)
  {
    var tail := MatchFrom(s, i + 1);
    if tail.Some? {
      assert MatchFrom(s, i) == Some([None] + tail.value);
      SpellAbsentGroup(s, i, tail.value);
    }
  }

  /** Soundness: whatever the matcher returns is well formed and spells the
      input back exactly. */
  lemma {:induction false} MatchFromSound(s: string, i: nat)
    requires i <= |UNITS|
    ensures SpellsBack(s, i)
    decreases |UNITS| - i
  {
    if i < |UNITS| {
      var n := DigitRun(s);
      if 0 < n < |s| && s[n] == Letter(UNITS[i]) {
        MatchFromSound(s[n + 1..], i + 1);
        SoundPresentStep(s, i, n);
      } else {
        MatchFromSound(s, i + 1);
        SoundAbsentStep(s, i);
      }
    }
  }

  /** The matcher accepts exactly the texts of the grammar, and the captures
      it returns are the unique ones that spell the input. */
  lemma MatchCharacterised(s: string, c: Captures)
    ensures Match(s) == Some(c) <==> |c| == |UNITS| && WellFormed(c) && Spell(c) == s
  {
    if |c| == |UNITS| && WellFormed(c) && Spell(c) == s {
      MatchFromComplete(c, 0);
    }
  }

  /** Every character of an accepted text is a digit or a unit letter, every
      letter comes right after a digit, the text ends in a letter, and its
      letters are strictly ascending in `UNITS` order: a unit out of order, a
      repeated unit, an unknown letter, a letter without a count or a
      trailing run of digits makes the text fail to match. */
  predicate OrderedUnitText(t: string, i: nat) {
    && (forall p :: 0 <= p < |t| ==> IsDigit(t[p]) || i <= LetterRank(t[p]))
    && (forall p :: 0 <= p < |t| && LetterRank(t[p]) >= 0 ==> 0 < p && IsDigit(t[p - 1]))
    && (t != "" ==> LetterRank(t[|t| - 1]) >= 0)
    && (forall p, q :: 0 <= p < q < |t| && LetterRank(t[p]) >= 0 && LetterRank(t[q]) >= 0 ==>
          LetterRank(t[p]) < LetterRank(t[q]))
  }

  /** A group for unit `i` followed by text whose letters all rank after `i`
      keeps the letters in ascending order. */
  lemma GroupThenOrdered(d: string, i: nat, rest: string)
    requires i < |UNITS| && |d| > 0 && IsDigits(d) && OrderedUnitText(rest, i + 1)
    ensures OrderedUnitText(d + [Letter(UNITS[i])] + rest, i)
  {
    var t := d + [Letter(UNITS[i])] + rest;
    GroupCharacters(d, i, rest);
    GroupLettersAscend(d, i, rest);
    RankOfLetter(i);
    if rest != "" {
      assert t[|t| - 1] == rest[|rest| - 1];
    }
  }

  /** The characters of a group followed by ordered text: digits and letters
      ranked from `i` on, each letter right after a digit. */
  lemma GroupCharacters(d: string, i: nat, rest: string)
    requires i < |UNITS| && |d| > 0 && IsDigits(d) && OrderedUnitText(rest, i + 1)
    ensures var t := d + [Letter(UNITS[i])] + rest;
            && (forall p :: 0 <= p < |t| ==> IsDigit(t[p]) || i <= LetterRank(t[p]))
            && (forall p :: 0 <= p < |t| && LetterRank(t[p]) >= 0 ==> 0 < p && IsDigit(t[p - 1]))
  {
    var g := d + [Letter(UNITS[i])];
    var t := g + rest;
    RankOfLetter(i);
    assert forall p :: 0 <= p < |d| ==> t[p] == d[p] && LetterRank(t[p]) == -1;
    assert t[|d|] == Letter(UNITS[i]);
    forall p | 0 <= p < |t|
      ensures IsDigit(t[p]) || i <= LetterRank(t[p])
    {
      if p >= |g| {
        assert t[p] == rest[p - |g|];
      }
    }
    forall p | 0 <= p < |t| && LetterRank(t[p]) >= 0
      ensures 0 < p && IsDigit(t[p - 1])
    {
      if p >= |g| {
        assert t[p] == rest[p - |g|];
        assert t[p - 1] == rest[p - 1 - |g|];
      }
    }
  }

  /** The letters of a group followed by ordered text ascend. */
  lemma GroupLettersAscend(d: string, i: nat, rest: string)
    requires i < |UNITS| && IsDigits(d) && OrderedUnitText(rest, i + 1)
    ensures var t := d + [Letter(UNITS[i])] + rest;
            forall p, q :: 0 <= p < q < |t| && LetterRank(t[p]) >= 0 && LetterRank(t[q]) >= 0 ==>
              LetterRank(t[p]) < LetterRank(t[q])
  {
    var g := d + [Letter(UNITS[i])];
    var t := g + rest;
    RankOfLetter(i);
    assert forall p :: 0 <= p < |d| ==> t[p] == d[p] && LetterRank(t[p]) == -1;
    assert t[|d|] == Letter(UNITS[i]);
    forall p, q | 0 <= p < q < |t| && LetterRank(t[p]) >= 0 && LetterRank(t[q]) >= 0
      ensures LetterRank(t[p]) < LetterRank(t[q])
    {
      if p < |g| {
        assert p == |d|;
        assert t[q] == rest[q - |g|];
      } else {
        assert t[p] == rest[p - |g|] && t[q] == rest[q - |g|];
      }
    }
  }

  lemma OrderedWeaken(t: string, i: nat)
    requires OrderedUnitText(t, i + 1)
    ensures OrderedUnitText(t, i)
  {
  }

  lemma {:induction false} SpellFromOrdered(c: Captures, i: nat)
    requires i + |c| == |UNITS| && WellFormed(c)
    ensures OrderedUnitText(SpellFrom(c, i), i)
    decreases |c|
  {
    if c != [] {
      var rest := SpellFrom(c[1..], i + 1);
      WellFormedTail(c);
      SpellFromOrdered(c[1..], i + 1);
      assert IsNumeral(c[0]);
      match c[0]
      case None =>
        assert SpellFrom(c, i) == rest;
        OrderedWeaken(rest, i);
      case Some(d) =>
        assert SpellFrom(c, i) == d + [Letter(UNITS[i])] + rest;
        GroupThenOrdered(d, i, rest);
    }
  }

  lemma AcceptedTextOrdered(s: string)
    ensures Match(s).Some? ==> OrderedUnitText(s, 0)
  {
    if Match(s).Some? {
      SpellFromOrdered(Match(s).value, 0);
    }
  }

  /** A unit letter without a count before it (`w`, `1wd`) does not match. */
  lemma CountlessLetterRejected()
    ensures Match("w") == None
    ensures Match("1wd") == None
  {
    AcceptedTextOrdered("w");
    assert LetterRank("w"[0]) == 0;
    AcceptedTextOrdered("1wd");
    assert LetterRank("1wd"[2]) == 1 && !IsDigit("1wd"[1]);
  }

  /** The empty text matches with every group absent. */
  lemma EmptyMatches()
    ensures Match("") == Some([None, None, None, None, None])
  {
    var none: Captures := [None, None, None, None, None];
    MatchCharacterised("", none);
  }

  /** Units out of order (`5s5d`), a unit given twice (`1s1s`) and an unknown
      unit (`1y`) do not match. */
  lemma MisorderedRejected()
    ensures Match("5s5d") == None
    ensures Match("1s1s") == None
    ensures Match("1y") == None
  {
    AcceptedTextOrdered("5s5d");
    assert LetterRank("5s5d"[1]) == 4 && LetterRank("5s5d"[3]) == 1;
    AcceptedTextOrdered("1s1s");
    assert LetterRank("1s1s"[1]) == 4 && LetterRank("1s1s"[3]) == 4;
    AcceptedTextOrdered("1y");
    assert !IsDigit("1y"[1]) && LetterRank("1y"[1]) == -1;
  }
}
