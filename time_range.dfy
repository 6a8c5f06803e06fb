/** The time-range pattern of the working-hours parser,
      (\d{1,2}):(\d{2})(?:\s*(?:AM|PM)?)?\s*-\s*(\d{1,2}):(\d{2})(?:\s*(?:AM|PM)?)?
    with the `i` flag, as a hand-written matcher.  At a given start position the
    backtracking engine can succeed in at most one way: a greedy `\d{1,2}` that
    falls back to one digit finds a digit, not ':', after it; and the '-' is the
    first character after the start minute that is neither white space nor part
    of one AM/PM marker.  So MatchAt is a function, and MatchAtCorrect proves it
    agrees exactly with the declarative reading of the pattern.  The trailing
    optional group never changes whether or what the pattern captures. */
module TimeRange {
  import opened Wrappers
  import opened JsText

  /** A match of the pattern in a line: where it starts (`at`), how many digits
      the start hour has, where the end hour starts (`endAt`) and how many digits
      it has.  The captured texts are read off the line by StartHour,
      StartMinute, EndHour and EndMinute. */
  datatype RangeMatch = RangeMatch(at: nat, startDigits: nat, endAt: nat, endDigits: nat)

  /** `\d{1,2}` */
  predicate IsHourText(h: string) {
    1 <= |h| <= 2 && AllDigits(h)
  }

  /** `\d{2}` */
  predicate IsMinuteText(m: string) {
    |m| == 2 && AllDigits(m)
  }

  /** `(\d{1,2}):(\d{2})` with `n` hour digits at `i`. */
  predicate TimeTextAt(s: string, i: nat, n: nat) {
    1 <= n <= 2 && i + n + 3 <= |s|
    && IsDigit(s[i]) && (n == 2 ==> IsDigit(s[i + 1]))
    && s[i + n] == ':' && IsDigit(s[i + n + 1]) && IsDigit(s[i + n + 2])
  }

  /** `(?:AM|PM)` at `i`, ignoring case. */
  predicate MeridiemAt(s: string, i: int) {
    OccursAt(IgnoreCase, s, "AM", i) || OccursAt(IgnoreCase, s, "PM", i)
  }

  lemma MeridiemStartsWithLetter(s: string, i: int)
    requires MeridiemAt(s, i)
    ensures FoldCase(s[i]) == 'A' || FoldCase(s[i]) == 'P'
  {
    assert SameChar(IgnoreCase, s[i + 0], "AM"[0]) || SameChar(IgnoreCase, s[i + 0], "PM"[0]);
  }

  predicate SpacesBetween(s: string, i: int, j: int)
    requires 0 <= i <= j <= |s|
  {
    forall k {:trigger IsSpace(s[k])} :: i <= k < j ==> IsSpace(s[k])
  }

  /** Where a greedy `\s*` that starts at `i` stops. */
  function SkipSpaces(s: string, i: nat): (j: nat)
    requires i <= |s|
    ensures i <= j <= |s| && SpacesBetween(s, i, j)
    ensures j < |s| ==> !IsSpace(s[j])
    decreases |s| - i
  {
    if i == |s| || !IsSpace(s[i]) then i else SkipSpaces(s, i + 1)
  }

  lemma SkipSpacesUnique(s: string, i: nat, j: nat)
    requires i <= j <= |s| && SpacesBetween(s, i, j) && (j < |s| ==> !IsSpace(s[j]))
    ensures SkipSpaces(s, i) == j
  {
  }

  /** `(\d{1,2}):(\d{2})` at `i`: the number of hour digits, 0 when it does not
      match.  A greedy `\d{1,2}` tries two digits first. */
  function HourDigits(s: string, i: nat): (n: nat)
    ensures n <= 2
    ensures n > 0 ==> TimeTextAt(s, i, n)
    ensures n == 0 ==> !TimeTextAt(s, i, 1) && !TimeTextAt(s, i, 2)
  {
    if TimeTextAt(s, i, 2) then 2 else if TimeTextAt(s, i, 1) then 1 else 0
  }

  /** Two digits followed by ':' and one digit followed by ':' exclude each
      other, so the backtracking engine finds at most one start time at `i`. */
  lemma HourDigitsComplete(s: string, i: nat, n: nat)
    requires TimeTextAt(s, i, n)
    ensures HourDigits(s, i) == n
  {
  }

  /** The positions of a separator `(?:\s*(?:AM|PM)?)?\s*-\s*` that runs from `i`
      to `q`: the marker occupies `[a, b)` and the hyphen sits at `c`. */
  predicate SeparatorSplit(s: string, i: int, a: int, b: int, c: int, q: int) {
    0 <= i <= a <= b <= c < q <= |s|
    && SpacesBetween(s, i, a)
    && (b == a || (b == a + 2 && MeridiemAt(s, a)))
    && SpacesBetween(s, b, c) && s[c] == '-' && SpacesBetween(s, c + 1, q)
  }

  ghost predicate IsSeparatorBetween(s: string, i: int, q: int) {
    exists a, b, c :: SeparatorSplit(s, i, a, b, c, q)
  }

  /** Where the hyphen of a separator starting at `i` must be. */
  function HyphenPos(s: string, i: nat): (c: nat)
    requires i <= |s|
    ensures i <= c <= |s|
  {
    var a := SkipSpaces(s, i);
    var b := if MeridiemAt(s, a) then a + 2 else a;
    SkipSpaces(s, b)
  }

  /** Where the separator that starts at `i` ends, when there is one; greedy
      `\s*` takes all the white space after the hyphen. */
  function SeparatorEnd(s: string, i: nat): (r: Option<nat>)
    requires i <= |s|
    ensures r.Some? ==> i < r.value <= |s|
    ensures r.Some? ==> r.value < |s| ==> !IsSpace(s[r.value])
  {
    var c := HyphenPos(s, i);
    if c == |s| || s[c] != '-' then None else Some(SkipSpaces(s, c + 1))
  }

  /** What SeparatorEnd finds is a separator. */
  lemma SeparatorEndSound(s: string, i: nat)
    requires i <= |s| && SeparatorEnd(s, i).Some?
    ensures IsSeparatorBetween(s, i, SeparatorEnd(s, i).value)
  {
    var a := SkipSpaces(s, i);
    var b := if MeridiemAt(s, a) then a + 2 else a;
    var c := HyphenPos(s, i);
    assert SeparatorSplit(s, i, a, b, c, SeparatorEnd(s, i).value);
  }

  /** The hyphen of a separator is where HyphenPos looks for it. */
  lemma HyphenPosComplete(s: string, i: int, a: int, b: int, c: int, q: int)
    requires SeparatorSplit(s, i, a, b, c, q)
    ensures HyphenPos(s, i) == c
  {
    if b == a + 2 {
      MeridiemStartsWithLetter(s, a);
      SkipSpacesUnique(s, i, a);
      SkipSpacesUnique(s, b, c);
    } else {
      SkipSpacesUnique(s, i, c);
      if MeridiemAt(s, c) {
        MeridiemStartsWithLetter(s, c);
      }
    }
  }

  /** A separator followed by something other than white space is the one
      SeparatorEnd finds. */
  lemma SeparatorEndComplete(s: string, i: nat, q: nat)
    requires i <= |s| && IsSeparatorBetween(s, i, q) && (q < |s| ==> !IsSpace(s[q]))
    ensures SeparatorEnd(s, i) == Some(q)
  {
    var a, b, c :| SeparatorSplit(s, i, a, b, c, q);
    HyphenPosComplete(s, i, a, b, c, q);
    SkipSpacesUnique(s, c + 1, q);
  }

  /** The match of the pattern that starts exactly at `p`, if there is one. */
  function MatchAt(s: string, p: nat): (r: Option<RangeMatch>)
    ensures p >= |s| ==> r.None?
    ensures r.Some? ==> r.value.at == p
  {
    var sd := HourDigits(s, p);
    if sd == 0 then None
    else match SeparatorEnd(s, p + sd + 3)
      case None => None
      case Some(q) =>
        var ed := HourDigits(s, q);
        if ed == 0 then None else Some(RangeMatch(p, sd, q, ed))
  }

  /** The declarative reading of the pattern: the text at `p` is a start time,
      a separator and an end time, laid out as `m` says. */
  ghost predicate MatchesPatternAt(s: string, p: nat, m: RangeMatch) {
    m.at == p
    && TimeTextAt(s, p, m.startDigits)
    && p + m.startDigits + 3 <= m.endAt
    && IsSeparatorBetween(s, p + m.startDigits + 3, m.endAt)
    && TimeTextAt(s, m.endAt, m.endDigits)
  }

  lemma MatchAtSound(s: string, p: nat)
    requires MatchAt(s, p).Some?
    ensures MatchesPatternAt(s, p, MatchAt(s, p).value)
  {
    SeparatorEndSound(s, p + HourDigits(s, p) + 3);
  }

  lemma MatchAtComplete(s: string, p: nat, m: RangeMatch)
    requires MatchesPatternAt(s, p, m)
    ensures MatchAt(s, p) == Some(m)
  {
    assert HourDigits(s, p) == m.startDigits by {
      HourDigitsComplete(s, p, m.startDigits);
    }
    assert SeparatorEnd(s, p + m.startDigits + 3) == Some(m.endAt) by {
      DigitIsNotSpace(s[m.endAt]);
      SeparatorEndComplete(s, p + m.startDigits + 3, m.endAt);
    }
    assert HourDigits(s, m.endAt) == m.endDigits by {
      HourDigitsComplete(s, m.endAt, m.endDigits);
    }
    MatchAtFrom(s, p, m.startDigits, m.endAt, m.endDigits);
    assert m == RangeMatch(p, m.startDigits, m.endAt, m.endDigits);
  }

  /** MatchAt from its three steps. */
  lemma MatchAtFrom(s: string, p: nat, sd: nat, q: nat, ed: nat)
    requires 0 < sd && HourDigits(s, p) == sd && p + sd + 3 <= |s|
    requires SeparatorEnd(s, p + sd + 3) == Some(q) && 0 < ed && HourDigits(s, q) == ed
    ensures MatchAt(s, p) == Some(RangeMatch(p, sd, q, ed))
  {
  }

  /** MatchAt is exactly the pattern, read declaratively, anchored at `p`. */
  lemma MatchAtCorrect(s: string, p: nat, m: RangeMatch)
    ensures MatchAt(s, p) == Some(m) <==> MatchesPatternAt(s, p, m)
  {
    if MatchAt(s, p) == Some(m) {
      MatchAtSound(s, p);
    }
    if MatchesPatternAt(s, p, m) {
      MatchAtComplete(s, p, m);
    }
  }

  /** The leftmost match at or after `from`. */
  function FirstMatchFrom(s: string, from: nat): (r: Option<RangeMatch>)
    ensures r.Some? ==> from <= r.value.at && MatchAt(s, r.value.at) == r
    decreases |s| - from
  {
    if from >= |s| then None
    else
      var here := MatchAt(s, from);
      if here.Some? then here else FirstMatchFrom(s, from + 1)
  }

  /** No match starts at `q` when `q` lies at or after `from` and before the
      match FirstMatchFrom returns, or anywhere at or after `from` when it
      returns none. */
  lemma {:induction false} NoMatchBeforeFirst(s: string, from: nat, q: nat)
    requires from <= q
    requires FirstMatchFrom(s, from).None? || q < FirstMatchFrom(s, from).value.at
    ensures MatchAt(s, q).None?
    decreases q - from
  {
    if from == q {
      NoMatchAtStart(s, from);
    } else if from < |s| {
      NoMatchAtStart(s, from);
      FirstMatchFromSkip(s, from);
      NoMatchBeforeFirst(s, from + 1, q);
    }
  }

  /** No match starts at `from` unless FirstMatchFrom returns it. */
  lemma NoMatchAtStart(s: string, from: nat)
    requires FirstMatchFrom(s, from).None? || from < FirstMatchFrom(s, from).value.at
    ensures MatchAt(s, from).None?
  {
  }

  /** A position without a match is skipped. */
  lemma FirstMatchFromSkip(s: string, from: nat)
    requires from < |s| && MatchAt(s, from).None?
    ensures FirstMatchFrom(s, from) == FirstMatchFrom(s, from + 1)
  {
  }

  lemma FirstMatchFromLeftmost(s: string, from: nat)
    ensures FirstMatchFrom(s, from).Some? ==>
      forall q :: from <= q < FirstMatchFrom(s, from).value.at ==> MatchAt(s, q).None?
    ensures FirstMatchFrom(s, from).None? ==> forall q :: from <= q ==> MatchAt(s, q).None?
  {
    forall q | from <= q && (FirstMatchFrom(s, from).None? || q < FirstMatchFrom(s, from).value.at)
      ensures MatchAt(s, q).None?
    {
      NoMatchBeforeFirst(s, from, q);
    }
  }

  /** `s.match(timeRegex)`: the leftmost match, if any. */
  function FirstMatch(s: string): (r: Option<RangeMatch>)
    ensures r.Some? ==> MatchAt(s, r.value.at) == r
    ensures r.Some? ==> forall q :: 0 <= q < r.value.at ==> MatchAt(s, q).None?
    ensures r.None? ==> forall q: nat :: MatchAt(s, q).None?
  {
    FirstMatchFromLeftmost(s, 0);
    FirstMatchFrom(s, 0)
  }

  /** FirstMatch returns a match of the pattern, and no match of the pattern
      starts further left. */
  lemma FirstMatchIsLeftmost(s: string)
    ensures FirstMatch(s).Some? ==> MatchesPatternAt(s, FirstMatch(s).value.at, FirstMatch(s).value)
    ensures FirstMatch(s).Some? ==>
      forall q: nat, m :: q < FirstMatch(s).value.at ==> !MatchesPatternAt(s, q, m)
    ensures FirstMatch(s).None? ==> forall q: nat, m :: !MatchesPatternAt(s, q, m)
  {
    var r := FirstMatch(s);
    if r.Some? {
      MatchAtSound(s, r.value.at);
    }
    forall q: nat, m | MatchesPatternAt(s, q, m)
      ensures r.Some? && r.value.at <= q
    {
      MatchAtComplete(s, q, m);
    }
  }

  /** The captured texts of a match found in `s`. */
  function StartHour(s: string, m: RangeMatch): (h: string)
    requires MatchAt(s, m.at) == Some(m)
    ensures IsHourText(h) && |h| == m.startDigits
  {
    s[m.at..m.at + m.startDigits]
  }

  function StartMinute(s: string, m: RangeMatch): (h: string)
    requires MatchAt(s, m.at) == Some(m)
    ensures IsMinuteText(h)
  {
    s[m.at + m.startDigits + 1..m.at + m.startDigits + 3]
  }

  function EndHour(s: string, m: RangeMatch): (h: string)
    requires MatchAt(s, m.at) == Some(m)
    ensures IsHourText(h) && |h| == m.endDigits
  {
    s[m.endAt..m.endAt + m.endDigits]
  }

  function EndMinute(s: string, m: RangeMatch): (h: string)
    requires MatchAt(s, m.at) == Some(m)
    ensures IsMinuteText(h)
  {
    s[m.endAt + m.endDigits + 1..m.endAt + m.endDigits + 3]
  }

  /** Where the start time of a match ends, marker excluded. */
  function StartTimeEnd(s: string, m: RangeMatch): (k: nat)
    requires MatchAt(s, m.at) == Some(m)
    ensures k <= |s|
  {
    m.at + m.startDigits + 3
  }

  /** Where the end time of a match ends, marker excluded. */
  function EndTimeEnd(s: string, m: RangeMatch): (k: nat)
    requires MatchAt(s, m.at) == Some(m)
    ensures k <= |s|
  {
    m.endAt + m.endDigits + 3
  }
}
