/**
 The few Python string builtins the scraper and the table display rely on,
 written out over `seq<char>`: `str.isdigit`, `str.lower`, the substring
 test `needle in hay`, `str.split(sep)[-1]`, `str(n)` for a natural number
 and `int(s)` on a decimal literal.

 Character classes are ASCII-only (and, for `lower`, basic Cyrillic); the
 rest of Unicode is not modelled.
 */
module Strings {
  import opened Optional

  // ---------------------------------------------------------------------------
  // Characters
  // ---------------------------------------------------------------------------

  /** `c.isdigit()` for the ASCII digits. */
  predicate IsDigit(c: char) {
    '0' <= c <= '9'
  }

  function DigitValue(c: char): (d: nat)
    requires IsDigit(c)
    ensures d < 10
  {
    (c as int) - ('0' as int)
  }

  function DigitChar(d: nat): (c: char)
    requires d < 10
    ensures IsDigit(c) && DigitValue(c) == d
  {
    (('0' as int) + d) as char
  }

  /**
   The ASCII white space `int()` skips around a literal: space, tab, line
   feed, vertical tab, form feed and carriage return. The separators
   `\x1c`-`\x1f`, which `str.isspace()` accepts, are not skipped.
   */
  predicate IsIntSpace(c: char) {
    c == ' ' || '\t' <= c <= '\r'
  }

  /** `c.lower()` for Latin A-Z, Cyrillic А-Я and Ё; every other character is kept. */
  function LowerChar(c: char): char {
    if 'A' <= c <= 'Z' then ((c as int) + 32) as char
    else if 'А' <= c <= 'Я' then ((c as int) + 32) as char
    else if c == 'Ё' then 'ё'
    else c
  }

  /** The capital letters `LowerChar` changes: Latin A-Z, Cyrillic А-Я and Ё. */
  predicate IsUpper(c: char) {
    'A' <= c <= 'Z' || 'А' <= c <= 'Я' || c == 'Ё'
  }

  /**
   `s.lower()`: no capital letter is left, and a character changes exactly
   when it is a capital letter.
   */
  function Lower(s: string): (r: string)
    ensures |r| == |s|
    ensures forall i :: 0 <= i < |s| ==> !IsUpper(r[i]) && (r[i] != s[i] <==> IsUpper(s[i]))
  {
    seq(|s|, i requires 0 <= i < |s| => LowerChar(s[i]))
  }

  lemma LowerCharIdempotent(c: char)
    ensures LowerChar(LowerChar(c)) == LowerChar(c)
  {
  }

  /** Lower-casing twice is lower-casing once, so a term that is already lower-cased is unaffected. */
  lemma LowerIdempotent(s: string)
    ensures Lower(Lower(s)) == Lower(s)
  {
    forall i | 0 <= i < |s|
      ensures Lower(Lower(s))[i] == Lower(s)[i]
    {
      LowerCharIdempotent(s[i]);
    }
  }

  // ---------------------------------------------------------------------------
  // Occurrences of a pattern
  // ---------------------------------------------------------------------------

  /** `pat` occurs in `s` starting at index `k`. */
  predicate OccursAt(s: string, pat: string, k: int) {
    0 <= k && k + |pat| <= |s| && s[k..k + |pat|] == pat
  }

  lemma OccursAtShift(s: string, pat: string, k: nat)
    requires 0 < |s|
    ensures OccursAt(s[1..], pat, k) <==> OccursAt(s, pat, k + 1)
  {
    if k + |pat| <= |s| - 1 {
      assert s[1..][k..k + |pat|] == s[k + 1..k + 1 + |pat|];
    }
  }

  /** `needle in hay`: true exactly when the needle occurs somewhere in the haystack. */
  function Contains(hay: string, needle: string): (b: bool)
    ensures b <==> exists k :: OccursAt(hay, needle, k)
    decreases |hay|
  {
    if |needle| <= |hay| && hay[..|needle|] == needle then
      assert OccursAt(hay, needle, 0);
      true
    else if |hay| == 0 then
      false
    else
      var b := Contains(hay[1..], needle);
      if b then
        var k :| OccursAt(hay[1..], needle, k);
        OccursAtShift(hay, needle, k);
        true
      else
        forall k: nat
          ensures !OccursAt(hay, needle, k)
        {
          if k > 0 {
            OccursAtShift(hay, needle, k - 1);
          }
        }
        false
  }

  /** The start of the right-most occurrence of `pat` in `s` at or below index `k`, scanning right to left. */
  function LastOccurrenceFrom(s: string, pat: string, k: int): (r: Option<nat>)
    ensures r.Some? ==> r.value <= k && OccursAt(s, pat, r.value)
    ensures r.Some? ==> forall j :: r.value < j <= k ==> !OccursAt(s, pat, j)
    ensures r.None? ==> forall j :: j <= k ==> !OccursAt(s, pat, j)
    decreases k + 1
  {
    if k < 0 then None
    else if OccursAt(s, pat, k) then Some(k)
    else LastOccurrenceFrom(s, pat, k - 1)
  }

  /** The start of the right-most occurrence of `pat` in `s`, if any. */
  function LastOccurrence(s: string, pat: string): (r: Option<nat>)
    ensures r.Some? ==> OccursAt(s, pat, r.value)
    ensures r.Some? ==> forall j :: r.value < j ==> !OccursAt(s, pat, j)
    ensures r.None? ==> forall j :: !OccursAt(s, pat, j)
  {
    LastOccurrenceFrom(s, pat, |s| - |pat|)
  }

  // ---------------------------------------------------------------------------
  // str.split(sep)[-1]
  // ---------------------------------------------------------------------------

  /**
   The last piece of `s.split(sep)`. Python's split scans left to right and,
   on a match at `i`, closes the current piece and resumes after the match, so
   matches never overlap. `start` is where the current piece began, `i` the
   scan position.
   */
  function SplitLastFrom(s: string, sep: string, start: nat, i: nat): string
    requires 0 < |sep|
    requires start <= i <= |s|
    decreases |s| - i
  {
    if i + |sep| > |s| then s[start..]
    else if s[i..i + |sep|] == sep then SplitLastFrom(s, sep, i + |sep|, i + |sep|)
    else SplitLastFrom(s, sep, start, i + 1)
  }

  /** `s.split(sep)[-1]`; Python rejects an empty separator. */
  function SplitLast(s: string, sep: string): string
    requires 0 < |sep|
  {
    SplitLastFrom(s, sep, 0, 0)
  }

  /** No proper prefix of `pat` is also a suffix of it, so two occurrences can never overlap. */
  predicate BorderFree(pat: string) {
    forall d :: 0 < d < |pat| ==> pat[d..] != pat[..|pat| - d]
  }

  /** A pattern whose first character does not recur has no border. */
  lemma FirstCharUniqueIsBorderFree(pat: string)
    requires 0 < |pat|
    requires forall d :: 0 < d < |pat| ==> pat[d] != pat[0]
    ensures BorderFree(pat)
  {
    forall d | 0 < d < |pat|
      ensures pat[d..] != pat[..|pat| - d]
    {
      assert pat[d..][0] == pat[d] != pat[0] == pat[..|pat| - d][0];
    }
  }

  /** Two occurrences closer together than the pattern's length make a border of the pattern. */
  lemma OverlapIsBorder(s: string, pat: string, i: int, k: int)
    requires OccursAt(s, pat, i) && OccursAt(s, pat, k) && i < k < i + |pat|
    ensures pat[k - i..] == pat[..|pat| - (k - i)]
  {
    var d := k - i;
    assert pat[d..] == s[k..i + |pat|];
    assert s[k..k + |pat|][..|pat| - d] == s[k..i + |pat|];
  }

  /** With no occurrence of `sep` at or after `i`, the scan ends with the current piece. */
  lemma {:induction false} SplitLastFromNoMatch(s: string, sep: string, start: nat, i: nat)
    requires 0 < |sep| && start <= i <= |s|
    requires forall j :: i <= j ==> !OccursAt(s, sep, j)
    ensures SplitLastFrom(s, sep, start, i) == s[start..]
    decreases |s| - i
  {
    if i + |sep| <= |s| {
      assert !OccursAt(s, sep, i);
      SplitLastFromNoMatch(s, sep, start, i + 1);
    }
  }

  /**
   A scan that starts at or before the last occurrence `k` of a border-free
   separator steps onto `k` and ends with the text after it.
   */
  lemma {:induction false} SplitLastFromReachesLast(s: string, sep: string, start: nat, i: nat, k: nat)
    requires 0 < |sep| && BorderFree(sep)
    requires start <= i <= k && OccursAt(s, sep, k)
    requires forall j :: k < j ==> !OccursAt(s, sep, j)
    ensures SplitLastFrom(s, sep, start, i) == s[k + |sep|..]
    decreases |s| - i
  {
    if s[i..i + |sep|] == sep {
      assert OccursAt(s, sep, i);
      if i == k {
        SplitLastFromNoMatch(s, sep, k + |sep|, k + |sep|);
      } else {
        if k < i + |sep| {
          OverlapIsBorder(s, sep, i, k);
          assert false;
        }
        SplitLastFromReachesLast(s, sep, i + |sep|, i + |sep|, k);
      }
    } else {
      assert i != k;
      SplitLastFromReachesLast(s, sep, start, i + 1, k);
    }
  }

  /**
   The scan from `i` ends with the text after the last occurrence of `sep`
   when that occurrence lies at or beyond `i`, and with the current piece otherwise.
   */
  lemma SplitLastFromIsAfterLastOccurrence(s: string, sep: string, start: nat, i: nat)
    requires 0 < |sep| && BorderFree(sep)
    requires start <= i <= |s|
    ensures SplitLastFrom(s, sep, start, i) == match LastOccurrence(s, sep)
                                               case Some(k) => if i <= k then s[k + |sep|..] else s[start..]
                                               case None => s[start..]
  {
    match LastOccurrence(s, sep)
    case Some(k) =>
      if i <= k {
        SplitLastFromReachesLast(s, sep, start, i, k);
      } else {
        SplitLastFromNoMatch(s, sep, start, i);
      }
    case None =>
      SplitLastFromNoMatch(s, sep, start, i);
  }

  /**
   For a separator without a border, `s.split(sep)[-1]` is the text after the
   last occurrence of `sep`, and all of `s` when `sep` does not occur.
   */
  lemma SplitLastIsAfterLastOccurrence(s: string, sep: string)
    requires 0 < |sep| && BorderFree(sep)
    ensures SplitLast(s, sep) == match LastOccurrence(s, sep)
                                 case None => s
                                 case Some(k) => s[k + |sep|..]
  {
    SplitLastFromIsAfterLastOccurrence(s, sep, 0, 0);
  }

  // ---------------------------------------------------------------------------
  // Digits and decimal numbers
  // ---------------------------------------------------------------------------

  predicate AllDigits(s: string) {
    forall i :: 0 <= i < |s| ==> IsDigit(s[i])
  }

  /** The digit characters of `s`, in order. */
  function DigitsOf(s: string): (ds: string)
    ensures AllDigits(ds)
    ensures |ds| <= |s|
    ensures ds == [] <==> forall i :: 0 <= i < |s| ==> !IsDigit(s[i])
    decreases |s|
  {
    if |s| == 0 then []
    else
      var rest := DigitsOf(s[1..]);
      assert forall i :: 1 <= i < |s| ==> s[i] == s[1..][i - 1];
      if IsDigit(s[0]) then [s[0]] + rest else rest
  }

  lemma {:induction false} DigitsOfConcat(a: string, b: string)
    ensures DigitsOf(a + b) == DigitsOf(a) + DigitsOf(b)
    decreases |a|
  {
    if |a| == 0 {
      assert a + b == b;
    } else {
      assert (a + b)[1..] == a[1..] + b;
      DigitsOfConcat(a[1..], b);
    }
  }

  lemma DigitsOfAllDigits(s: string)
    requires AllDigits(s)
    ensures DigitsOf(s) == s
    decreases |s|
  {
    if |s| > 0 {
      DigitsOfAllDigits(s[1..]);
    }
  }

  /** `int(ds)` for a string of decimal digits, read left to right (leading zeros are allowed). */
  function DecimalValue(ds: string): nat
    requires AllDigits(ds)
    decreases |ds|
  {
    if |ds| == 0 then 0
    else DecimalValue(ds[..|ds| - 1]) * 10 + DigitValue(ds[|ds| - 1])
  }

  function Pow10(n: nat): (p: nat)
    ensures p >= 1
  {
    if n == 0 then 1 else 10 * Pow10(n - 1)
  }

  /** Reading two digit strings one after the other shifts the first by the length of the second. */
  lemma {:induction false} DecimalValueConcat(a: string, b: string)
    requires AllDigits(a) && AllDigits(b)
    ensures DecimalValue(a + b) == DecimalValue(a) * Pow10(|b|) + DecimalValue(b)
    decreases |b|
  {
    if |b| == 0 {
      assert a + b == a;
    } else {
      var b' := b[..|b| - 1];
      assert (a + b)[..|a + b| - 1] == a + b';
      DecimalValueConcat(a, b');
    }
  }

  /** A digit string of length `n` denotes a number below `10^n`. */
  lemma {:induction false} DecimalValueBound(ds: string)
    requires AllDigits(ds)
    ensures DecimalValue(ds) < Pow10(|ds|)
    decreases |ds|
  {
    if |ds| > 0 {
      DecimalValueBound(ds[..|ds| - 1]);
    }
  }

  /** A digit string that does not start with `0` denotes a positive number. */
  lemma {:induction false} DecimalValuePositive(ds: string)
    requires AllDigits(ds) && 0 < |ds| && ds[0] != '0'
    ensures DecimalValue(ds) > 0
    decreases |ds|
  {
    if |ds| > 1 {
      DecimalValuePositive(ds[..|ds| - 1]);
    }
  }

  /** `str(n)` for a natural number: its decimal digits, most significant first, without leading zeros. */
  function NatToString(n: nat): (s: string)
    ensures 0 < |s| && AllDigits(s)
    ensures s[0] == '0' ==> n == 0
    decreases n
  {
    if n < 10 then [DigitChar(n)]
    else NatToString(n / 10) + [DigitChar(n % 10)]
  }

  /** Reading back the rendering of `n` gives `n`. */
  lemma {:induction false} DecimalValueOfNatToString(n: nat)
    ensures DecimalValue(NatToString(n)) == n
    decreases n
  {
    var s := NatToString(n);
    if n >= 10 {
      DecimalValueOfNatToString(n / 10);
      assert s[..|s| - 1] == NatToString(n / 10);
    }
  }

  /** Rendering the value of a digit string without leading zeros gives the string back. */
  lemma {:induction false} NatToStringOfDecimalValue(ds: string)
    requires AllDigits(ds) && 0 < |ds|
    requires ds[0] == '0' ==> |ds| == 1
    ensures NatToString(DecimalValue(ds)) == ds
    decreases |ds|
  {
    if |ds| > 1 {
      var p := ds[..|ds| - 1];
      var d := DigitValue(ds[|ds| - 1]);
      NatToStringOfDecimalValue(p);
      DecimalValuePositive(p);
      var n := DecimalValue(ds);
      assert n == DecimalValue(p) * 10 + d;
      assert n / 10 == DecimalValue(p) && n % 10 == d;
      assert DigitChar(d) == ds[|ds| - 1];
      assert ds == p + [ds[|ds| - 1]];
    } else {
      assert DigitChar(DigitValue(ds[0])) == ds[0];
    }
  }

  /** Distinct numbers render differently. */
  lemma NatToStringInjective(m: nat, n: nat)
    requires NatToString(m) == NatToString(n)
    ensures m == n
  {
    DecimalValueOfNatToString(m);
    DecimalValueOfNatToString(n);
  }

  // ---------------------------------------------------------------------------
  // int(s)
  // ---------------------------------------------------------------------------

  function StripLeft(s: string): (r: string)
    ensures |r| <= |s| && r == s[|s| - |r|..]
    ensures 0 < |r| ==> !IsIntSpace(r[0])
    ensures forall i :: 0 <= i < |s| - |r| ==> IsIntSpace(s[i])
    decreases |s|
  {
    if |s| > 0 && IsIntSpace(s[0]) then StripLeft(s[1..]) else s
  }

  function StripRight(s: string): (r: string)
    ensures |r| <= |s| && r == s[..|r|]
    ensures 0 < |r| ==> !IsIntSpace(r[|r| - 1])
    ensures forall i :: |r| <= i < |s| ==> IsIntSpace(s[i])
    decreases |s|
  {
    if |s| > 0 && IsIntSpace(s[|s| - 1]) then StripRight(s[..|s| - 1]) else s
  }

  /** The literal with the white space `int()` skips removed from both ends. */
  function Strip(s: string): string {
    StripRight(StripLeft(s))
  }

  /**
   The body of a Python integer literal in base 10: digits, where a single
   underscore may separate two digits (`1_000`).
   */
  predicate IsDigitGroups(b: string) {
    && 0 < |b| && IsDigit(b[0])
    && forall i :: 0 <= i < |b| && !IsDigit(b[i]) ==> b[i] == '_' && i + 1 < |b| && IsDigit(b[i + 1])
  }

  /** The digits of a digit-group body, underscores dropped. */
  function ParseDigitGroups(b: string): (r: Option<nat>)
    ensures r.Some? <==> IsDigitGroups(b)
    ensures r.Some? ==> r.value == DecimalValue(DigitsOf(b))
  {
    if IsDigitGroups(b) then Some(DecimalValue(DigitsOf(b))) else None
  }

  /**
   `int(s)`: white space around the literal is ignored, an optional `+` or
   `-` sign comes first, and the rest must be a digit-group body. Anything
   else is a `ValueError`, modelled as `None`.
   */
  function ParseInt(s: string): Option<int> {
    var t := Strip(s);
    if 0 < |t| && (t[0] == '+' || t[0] == '-') then
      match ParseDigitGroups(t[1..])
      case None => None
      case Some(v) => Some(if t[0] == '-' then -(v as int) else v)
    else
      match ParseDigitGroups(t)
      case None => None
      case Some(v) => Some(v)
  }

  lemma ParseDigitGroupsOfNatToString(n: nat)
    ensures ParseDigitGroups(NatToString(n)) == Some(n)
  {
    DigitsOfAllDigits(NatToString(n));
    DecimalValueOfNatToString(n);
  }

  /** A string that neither starts nor ends with white space is its own strip. */
  lemma StripUntrimmed(s: string)
    requires 0 < |s| ==> !IsIntSpace(s[0]) && !IsIntSpace(s[|s| - 1])
    ensures Strip(s) == s
  {
    assert StripLeft(s) == s;
  }

  /** `int(str(n)) == n`. */
  lemma ParseIntOfNatToString(n: nat)
    ensures ParseInt(NatToString(n)) == Some(n)
  {
    var s := NatToString(n);
    StripUntrimmed(s);
    ParseDigitGroupsOfNatToString(n);
  }

  /** `int("-" + str(n)) == -n`. */
  lemma ParseIntOfNegated(n: nat)
    ensures ParseInt("-" + NatToString(n)) == Some(-(n as int))
  {
    var digits := NatToString(n);
    var s := "-" + digits;
    assert s[|s| - 1] == digits[|digits| - 1];
    StripUntrimmed(s);
    assert s[1..] == digits;
    ParseDigitGroupsOfNatToString(n);
  }

  /**
   `int()` rejects a text whose first character is neither white space it
   skips, nor a sign, nor a digit; `"\x1c5"` is one.
   */
  lemma ParseIntRejectsBadLead(s: string)
    requires 0 < |s| && !IsIntSpace(s[0]) && !IsDigit(s[0]) && s[0] != '+' && s[0] != '-'
    ensures ParseInt(s) == None
  {
    assert StripLeft(s) == s;
    assert Strip(s)[0] == s[0];
  }
}
