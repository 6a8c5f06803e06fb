/** The JavaScript string primitives the settings page relies on: `\d` and `\s`
    character classes, literal substring search with and without the `i` flag
    (`String.prototype.indexOf`, `RegExp.prototype.test`), the extent of a
    `[^\n]*` line, `Number.prototype.toString`, `parseInt` on a digit string and
    `String.prototype.padStart`. */
module JsText {

  /** `\d`: the ASCII decimal digits only. */
  predicate IsDigit(c: char) {
    '0' <= c <= '9'
  }

  predicate AllDigits(s: string) {
    forall k :: 0 <= k < |s| ==> IsDigit(s[k])
  }

  /** The white space and line terminator characters of ECMAScript. */
  const SpaceChars: set<char> := {'\t', '\n', '\U{B}', '\U{C}', '\r', ' ', '\U{A0}', '\U{1680}',
    '\U{2000}', '\U{2001}', '\U{2002}', '\U{2003}', '\U{2004}', '\U{2005}', '\U{2006}', '\U{2007}',
    '\U{2008}', '\U{2009}', '\U{200A}', '\U{2028}', '\U{2029}', '\U{202F}', '\U{205F}', '\U{3000}', '\U{FEFF}'}

  /** `\s` */
  predicate IsSpace(c: char) {
    c in SpaceChars
  }

  lemma DigitIsNotSpace(c: char)
    requires IsDigit(c)
    ensures !IsSpace(c)
  {
  }

  /** The canonical form a non-unicode `i` regular expression compares.  Only
      ASCII letters fold onto ASCII letters (a character above U+007F never
      canonicalises to one below it), so for the ASCII patterns of this model
      folding a-z onto A-Z is exact. */
  function FoldCase(c: char): (u: char)
    ensures 'a' <= c <= 'z' ==> u as int == c as int - 32
    ensures !('a' <= c <= 'z') ==> u == c
  {
    if 'a' <= c <= 'z' then (c as int - 32) as char else c
  }

  /** Two characters are equal under the `i` flag exactly when they are the
      same character or one ASCII letter in its two cases. */
  lemma SameCharIgnoreCase(a: char, b: char)
    ensures SameChar(IgnoreCase, a, b) <==>
      a == b || ('a' <= a <= 'z' && b as int == a as int - 32) || ('a' <= b <= 'z' && a as int == b as int - 32)
  {
  }

  /** How a literal pattern is compared: `indexOf` compares exactly, a regular
      expression with the `i` flag ignores ASCII case. */
  datatype CaseMode = Exact | IgnoreCase

  predicate SameChar(mode: CaseMode, a: char, b: char) {
    match mode
    case Exact => a == b
    case IgnoreCase => FoldCase(a) == FoldCase(b)
  }

  /** `pat` occurs in `s` starting at index `i`. */
  predicate OccursAt(mode: CaseMode, s: string, pat: string, i: int) {
    0 <= i && i + |pat| <= |s| && forall k :: 0 <= k < |pat| ==> SameChar(mode, s[i + k], pat[k])
  }

  ghost predicate Contains(mode: CaseMode, s: string, pat: string) {
    exists i :: OccursAt(mode, s, pat, i)
  }

  /** `i` is the leftmost occurrence of `pat` in `s`. */
  ghost predicate IsFirstOccurrence(mode: CaseMode, s: string, pat: string, i: int) {
    OccursAt(mode, s, pat, i) && forall k :: 0 <= k < i ==> !OccursAt(mode, s, pat, k)
  }

  /** The leftmost occurrence of `pat` at or after `from`, or -1. */
  function IndexOfFrom(mode: CaseMode, s: string, pat: string, from: nat): (r: int)
    ensures r == -1 || (from <= r && OccursAt(mode, s, pat, r))
    ensures r != -1 ==> forall k :: from <= k < r ==> !OccursAt(mode, s, pat, k)
    ensures r == -1 ==> forall k :: from <= k ==> !OccursAt(mode, s, pat, k)
    decreases |s| - from
  {
    if from + |pat| > |s| then -1
    else if OccursAt(mode, s, pat, from) then from
    else IndexOfFrom(mode, s, pat, from + 1)
  }

  /** `s.indexOf(pat)` (mode Exact), or the index at which `s.match(/pat/i)`
      matches (mode IgnoreCase): the leftmost occurrence of `pat`, -1 when there
      is none. */
  function IndexOf(mode: CaseMode, s: string, pat: string): (r: int)
    ensures r >= -1
    ensures r >= 0 <==> Contains(mode, s, pat)
    ensures r >= 0 ==> IsFirstOccurrence(mode, s, pat, r)
  {
    IndexOfFrom(mode, s, pat, 0)
  }

  /** `/pat/.test(s)` for a pattern made of literal characters. */
  function Test(mode: CaseMode, s: string, pat: string): (b: bool)
    ensures b <==> Contains(mode, s, pat)
  {
    IndexOf(mode, s, pat) >= 0
  }

  /** The first occurrence of a pattern is unique. */
  lemma FirstOccurrenceUnique(mode: CaseMode, s: string, pat: string, i: int, j: int)
    requires IsFirstOccurrence(mode, s, pat, i) && IsFirstOccurrence(mode, s, pat, j)
    ensures i == j
  {
  }

  /** An occurrence with no earlier character matching the first character of
      the pattern is the first occurrence, and IndexOf finds it. */
  lemma IndexOfAt(mode: CaseMode, s: string, pat: string, i: int)
    requires 0 < |pat| && OccursAt(mode, s, pat, i)
    requires forall c | c in s[..i] :: !SameChar(mode, c, pat[0])
    ensures IndexOf(mode, s, pat) == i
  {
    forall k | 0 <= k < i ensures !OccursAt(mode, s, pat, k) {
      if k + |pat| <= |s| {
        assert s[k + 0] in s[..i];
      }
    }
    FirstOccurrenceUnique(mode, s, pat, i, IndexOf(mode, s, pat));
  }

  /** A pattern whose first character matches no character of `s` does not
      occur in it. */
  lemma AbsentFirstChar(mode: CaseMode, s: string, pat: string)
    requires 0 < |pat| && forall c | c in s :: !SameChar(mode, c, pat[0])
    ensures !Contains(mode, s, pat)
  {
    forall i ensures !OccursAt(mode, s, pat, i) {
      if 0 <= i && i + |pat| <= |s| {
        assert s[i + 0] in s;
      }
    }
  }

  /** Where a `[^\n]*` that starts at `i` stops: the first line feed at or after
      `i`, or the end of `s`. */
  function LineEnd(s: string, i: nat): (j: nat)
    requires i <= |s|
    ensures i <= j <= |s|
    ensures j < |s| ==> s[j] == '\n'
    ensures forall k :: i <= k < j ==> s[k] != '\n'
    decreases |s| - i
  {
    if i == |s| || s[i] == '\n' then i else LineEnd(s, i + 1)
  }

  /** `seg` is the longest run of non-line-feed characters of `s` starting at `i`. */
  ghost predicate IsLineFrom(s: string, i: int, seg: string) {
    0 <= i && i + |seg| <= |s| && s[i..i + |seg|] == seg
    && (forall k :: 0 <= k < |seg| ==> seg[k] != '\n')
    && (i + |seg| == |s| || s[i + |seg|] == '\n')
  }

  lemma LineEndIsLine(s: string, i: nat)
    requires i <= |s|
    ensures IsLineFrom(s, i, s[i..LineEnd(s, i)])
  {
    var j := LineEnd(s, i);
    var seg := s[i..j];
    forall k | 0 <= k < |seg| ensures seg[k] != '\n' {
      assert seg[k] == s[i + k];
    }
  }

  /** A stretch without a line feed that ends at one, or at the end, is where
      LineEnd stops. */
  lemma LineEndAt(s: string, i: nat, j: nat)
    requires i <= j <= |s| && '\n' !in s[i..j] && (j < |s| ==> s[j] == '\n')
    ensures LineEnd(s, i) == j
  {
  }

  lemma LineFromUnique(s: string, i: int, a: string, b: string)
    requires IsLineFrom(s, i, a) && IsLineFrom(s, i, b)
    ensures a == b
  {
  }

  function DigitChar(d: nat): (c: char)
    requires d < 10
    ensures IsDigit(c)
  {
    ('0' as int + d) as char
  }

  function DigitValue(c: char): (d: nat)
    requires IsDigit(c)
    ensures d < 10 && DigitChar(d) == c
  {
    c as int - '0' as int
  }

  /** `String(n)` for a non-negative integer: its decimal digits, with no
      leading zero. */
  function ToDecimal(n: nat): (r: string)
    ensures 1 <= |r| && AllDigits(r)
    ensures r[0] == '0' ==> n == 0 && r == "0"
    decreases n
  {
    if n < 10 then [DigitChar(n)] else ToDecimal(n / 10) + [DigitChar(n % 10)]
  }

  /** `parseInt(s)` for a non-empty string of decimal digits. */
  function ParseDecimal(s: string): (n: nat)
    requires 1 <= |s| && AllDigits(s)
    ensures s[0] != '0' ==> n >= 1
    decreases |s|
  {
    if |s| == 1 then DigitValue(s[0])
    else ParseDecimal(s[..|s| - 1]) * 10 + DigitValue(s[|s| - 1])
  }

  /** `String` writes back what `parseInt` reads, for digits without a leading
      zero. */
  lemma {:induction false} DecimalOfParse(s: string)
    requires 1 <= |s| && AllDigits(s) && (s[0] != '0' || |s| == 1)
    ensures ToDecimal(ParseDecimal(s)) == s
    decreases |s|
  {
    if |s| > 1 {
      var p := s[..|s| - 1];
      assert p[0] == s[0];
      DecimalOfParse(p);
      var d := DigitValue(s[|s| - 1]);
      var n := ParseDecimal(p) * 10 + d;
      DivideByTen(ParseDecimal(p), d);
      assert ToDecimal(n) == ToDecimal(n / 10) + [DigitChar(n % 10)];
      assert p + [s[|s| - 1]] == s;
    }
  }

  /** `parseInt` reads back what `String` writes. */
  lemma {:induction false} ParseToDecimal(n: nat)
    ensures ParseDecimal(ToDecimal(n)) == n
    decreases n
  {
    if n >= 10 {
      var r := ToDecimal(n);
      ParseToDecimal(n / 10);
      assert r[..|r| - 1] == ToDecimal(n / 10);
    }
  }

  /** Two digits read as their tens digit times ten plus their units digit. */
  lemma TwoDigitValue(s: string)
    requires |s| == 2 && AllDigits(s)
    ensures ParseDecimal(s) == DigitValue(s[0]) * 10 + DigitValue(s[1])
  {
    assert s[..1] == [s[0]];
  }

  /** A number from 10 to 99 is written with its two digits. */
  lemma TwoDigitDecimal(a: nat, b: nat)
    requires 1 <= a < 10 && b < 10
    ensures ToDecimal(a * 10 + b) == [DigitChar(a), DigitChar(b)]
  {
    var n := a * 10 + b;
    DivideByTen(a, b);
    assert ToDecimal(n) == ToDecimal(n / 10) + [DigitChar(n % 10)];
    assert ToDecimal(a) == [DigitChar(a)];
  }

  /** A number below 100 has at most two decimal digits. */
  lemma ShortDecimalLength(n: nat)
    requires n <= 99
    ensures |ToDecimal(n)| <= 2
  {
    if n >= 10 {
      assert ToDecimal(n) == ToDecimal(n / 10) + [DigitChar(n % 10)];
      assert ToDecimal(n / 10) == [DigitChar(n / 10)];
    }
  }

  lemma DivideByTen(a: nat, b: nat)
    requires b < 10
    ensures (a * 10 + b) / 10 == a && (a * 10 + b) % 10 == b
  {
  }

  /** Padding one digit to width two puts one '0' in front of it. */
  lemma PadOneDigit(c: char)
    ensures PadStart([c], 2, '0') == ['0', c]
  {
    assert Repeat('0', 1) == ['0'];
  }

  /** One or two digits: at most 99; two digits read back verbatim, one digit
      is written back with a `'0'` in front. */
  lemma ShortDecimal(s: string)
    requires 1 <= |s| <= 2 && AllDigits(s)
    ensures ParseDecimal(s) <= 99
    ensures PadStart(ToDecimal(ParseDecimal(s)), 2, '0') == if |s| == 1 then "0" + s else s
  {
    if |s| == 2 && s[0] == '0' {
      LeadingZeroDecimal(s);
    } else {
      DecimalOfParse(s);
      if |s| == 2 {
        TwoDigitValue(s);
      } else {
        assert s == [s[0]];
        PadOneDigit(s[0]);
      }
    }
  }

  lemma LeadingZeroDecimal(s: string)
    requires |s| == 2 && AllDigits(s) && s[0] == '0'
    ensures PadStart(ToDecimal(ParseDecimal(s)), 2, '0') == s
  {
    TwoDigitValue(s);
    PadOneDigit(s[1]);
    assert ToDecimal(ParseDecimal(s)) == [s[1]];
    assert s == ['0', s[1]];
  }

  function Repeat(c: char, n: nat): (r: string)
    ensures |r| == n && forall k :: 0 <= k < n ==> r[k] == c
  {
    if n == 0 then [] else [c] + Repeat(c, n - 1)
  }

  /** `s.padStart(width, fill)` with a one-character fill. */
  function PadStart(s: string, width: nat, fill: char): (r: string)
    ensures |s| >= width ==> r == s
    ensures |s| < width ==> |r| == width && r[width - |s|..] == s
    ensures |s| < width ==> forall k :: 0 <= k < width - |s| ==> r[k] == fill
  {
    if |s| >= width then s else Repeat(fill, width - |s|) + s
  }
}
