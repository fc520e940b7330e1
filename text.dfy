/**
 * The few Python `str` and `int` operations the backend relies on, on `seq<char>`:
 * `str.strip()`, `str.lower()` on ASCII letters, `s.split(sep)[-1]`,
 * `s.split(sep, 1)[1]`, `int(s)` for a base-10 literal and `str(n)`.
 */
module Text {
  import opened Outcomes

  /**
   * The characters Python's `str.isspace()` accepts, which `strip()` removes.
   * `int()` removes them too, except the four information separators
   * U+001C to U+001F, which it refuses (see `IsInformationSeparator`).
   */
  predicate IsSpace(c: char)
  {
    c == ' ' || ('\t' <= c <= '\r') || ('\U{1c}' <= c <= '\U{1f}') ||
    c == '\U{85}' || c == '\U{a0}' || c == '\U{1680}' || ('\U{2000}' <= c <= '\U{200a}') ||
    c == '\U{2028}' || c == '\U{2029}' || c == '\U{202f}' || c == '\U{205f}' || c == '\U{3000}'
  }

  /** `s.lstrip()`: the suffix of `s` left after its leading whitespace. */
  function StripLeading(s: string): (r: string)
    ensures |r| <= |s| && r == s[|s| - |r|..]
    ensures forall i :: 0 <= i < |s| - |r| ==> IsSpace(s[i])
    ensures r == [] || !IsSpace(r[0])
  {
    if s != [] && IsSpace(s[0]) then
      var rest := StripLeading(s[1..]);
      StripLeadingStep(s, s[1..], rest);
      rest
    else s
  }

  /** The step of `StripLeading` past a leading whitespace character. */
  lemma StripLeadingStep(s: string, tail: string, rest: string)
    requires s != [] && IsSpace(s[0]) && tail == s[1..]
    requires |rest| <= |tail| && rest == tail[|tail| - |rest|..]
    requires forall i :: 0 <= i < |tail| - |rest| ==> IsSpace(tail[i])
    ensures |rest| <= |s| && rest == s[|s| - |rest|..]
    ensures forall i :: 0 <= i < |s| - |rest| ==> IsSpace(s[i])
  {
    forall i | 0 < i < |s| - |rest|
      ensures IsSpace(s[i])
    {
      assert s[i] == tail[i - 1];
    }
  }

  /** `s.rstrip()`: the prefix of `s` left after its trailing whitespace. */
  function StripTrailing(s: string): (r: string)
    ensures |r| <= |s| && r == s[..|r|]
    ensures forall i :: |r| <= i < |s| ==> IsSpace(s[i])
    ensures r == [] || !IsSpace(r[|r| - 1])
  {
    if s != [] && IsSpace(s[|s| - 1]) then
      var rest := StripTrailing(s[..|s| - 1]);
      StripTrailingStep(s, s[..|s| - 1], rest);
      rest
    else s
  }

  /** The step of `StripTrailing` past a trailing whitespace character. */
  lemma StripTrailingStep(s: string, init: string, rest: string)
    requires s != [] && IsSpace(s[|s| - 1]) && init == s[..|s| - 1]
    requires |rest| <= |init| && rest == init[..|rest|]
    requires forall i :: |rest| <= i < |init| ==> IsSpace(init[i])
    ensures |rest| <= |s| && rest == s[..|rest|]
    ensures forall i :: |rest| <= i < |s| ==> IsSpace(s[i])
  {
    forall i | |rest| <= i < |s| - 1
      ensures IsSpace(s[i])
    {
      assert s[i] == init[i];
    }
  }

  /** `s.strip()`. */
  function Strip(s: string): (r: string)
    ensures r == [] || (!IsSpace(r[0]) && !IsSpace(r[|r| - 1]))
    ensures r == [] <==> forall i :: 0 <= i < |s| ==> IsSpace(s[i])
    ensures s == [] || (!IsSpace(s[0]) && !IsSpace(s[|s| - 1])) ==> r == s
    ensures exists i, j :: 0 <= i <= j <= |s| && r == s[i..j] &&
              (forall k :: 0 <= k < i ==> IsSpace(s[k])) &&
              (forall k :: j <= k < |s| ==> IsSpace(s[k]))
  {
    var t := StripLeading(s);
    var r := StripTrailing(t);
    LeadingCutOf(s);
    TrailingCutOf(t);
    StripFacts(s, t, r);
    r
  }

  /** `t` is `s` with only whitespace removed from its front, and `t` does not start with whitespace. */
  ghost predicate LeadingCut(s: string, t: string)
  {
    && |t| <= |s| && t == s[|s| - |t|..]
    && (forall i :: 0 <= i < |s| - |t| ==> IsSpace(s[i]))
    && (t == [] || !IsSpace(t[0]))
  }

  /** `r` is `t` with only whitespace removed from its back, and `r` does not end with whitespace. */
  ghost predicate TrailingCut(t: string, r: string)
  {
    && |r| <= |t| && r == t[..|r|]
    && (forall i :: |r| <= i < |t| ==> IsSpace(t[i]))
    && (r == [] || !IsSpace(r[|r| - 1]))
  }

  lemma LeadingCutOf(s: string)
    ensures LeadingCut(s, StripLeading(s))
  {
  }

  lemma TrailingCutOf(t: string)
    ensures TrailingCut(t, StripTrailing(t))
  {
  }

  /** What cutting whitespace from the front of `s`, then from the back, leaves. */
  lemma StripFacts(s: string, t: string, r: string)
    requires LeadingCut(s, t) && TrailingCut(t, r)
    ensures r == [] || (!IsSpace(r[0]) && !IsSpace(r[|r| - 1]))
    ensures r == [] <==> forall i :: 0 <= i < |s| ==> IsSpace(s[i])
    ensures s == [] || (!IsSpace(s[0]) && !IsSpace(s[|s| - 1])) ==> r == s
    ensures exists i, j :: 0 <= i <= j <= |s| && r == s[i..j] &&
              (forall k :: 0 <= k < i ==> IsSpace(s[k])) &&
              (forall k :: j <= k < |s| ==> IsSpace(s[k]))
  {
    CutEnds(t, r);
    CutEmpty(s, t, r);
    CutUnpadded(s, t, r);
    MiddleOf(s, t, r);
  }

  lemma CutEnds(t: string, r: string)
    requires (t == [] || !IsSpace(t[0])) && TrailingCut(t, r)
    ensures r == [] || (!IsSpace(r[0]) && !IsSpace(r[|r| - 1]))
  {
    if r != [] {
      assert r[0] == t[0];
    }
  }

  lemma CutEmpty(s: string, t: string, r: string)
    requires LeadingCut(s, t) && TrailingCut(t, r)
    ensures r == [] <==> forall i :: 0 <= i < |s| ==> IsSpace(s[i])
  {
    if t != [] {
      assert t[0] == s[|s| - |t|];
    }
  }

  lemma CutUnpadded(s: string, t: string, r: string)
    requires LeadingCut(s, t) && TrailingCut(t, r)
    ensures s == [] || (!IsSpace(s[0]) && !IsSpace(s[|s| - 1])) ==> r == s
  {
    if s != [] && !IsSpace(s[0]) && !IsSpace(s[|s| - 1]) {
      assert |t| == |s|;
      assert t == s;
    }
  }

  /** Removing whitespace from the front of `s` (giving `t`), then from the back of `t`, leaves a middle of `s`. */
  lemma MiddleOf(s: string, t: string, r: string)
    requires LeadingCut(s, t) && TrailingCut(t, r)
    ensures exists i, j :: 0 <= i <= j <= |s| && r == s[i..j] &&
              (forall k :: 0 <= k < i ==> IsSpace(s[k])) &&
              (forall k :: j <= k < |s| ==> IsSpace(s[k]))
  {
    var i := |s| - |t|;
    SuffixPrefix(s, i, t, r);
    SuffixSpaces(s, i, t, |r|);
    Middle(s, r, i, i + |r|);
  }

  /** `r` is the middle of `s` between whitespace, cut at `i` and `j`. */
  lemma Middle(s: string, r: string, i: int, j: int)
    requires 0 <= i <= j <= |s| && r == s[i..j]
    requires forall k :: 0 <= k < i ==> IsSpace(s[k])
    requires forall k :: j <= k < |s| ==> IsSpace(s[k])
    ensures exists i, j :: 0 <= i <= j <= |s| && r == s[i..j] &&
              (forall k :: 0 <= k < i ==> IsSpace(s[k])) &&
              (forall k :: j <= k < |s| ==> IsSpace(s[k]))
  {
  }

  /** A prefix `r` of the suffix `t == s[i..]` is the slice of `s` from `i`. */
  lemma SuffixPrefix(s: string, i: nat, t: string, r: string)
    requires i <= |s| && t == s[i..] && |r| <= |t| && r == t[..|r|]
    ensures r == s[i..i + |r|]
  {
  }

  /** Whitespace at the end of the suffix `t == s[i..]` is whitespace at the end of `s`. */
  lemma SuffixSpaces(s: string, i: nat, t: string, m: nat)
    requires i <= |s| && t == s[i..] && m <= |t|
    requires forall k :: m <= k < |t| ==> IsSpace(t[k])
    ensures forall k :: i + m <= k < |s| ==> IsSpace(s[k])
  {
    forall k | i + m <= k < |s|
      ensures IsSpace(s[k])
    {
      assert s[k] == t[k - i];
    }
  }

  /** Python's `lower()` on one character, for the ASCII letters. */
  function LowerChar(c: char): char
  {
    if 'A' <= c <= 'Z' then (c as int + 32) as char else c
  }

  /** `s.lower()` with ASCII case mapping. */
  function Lower(s: string): (r: string)
    ensures |r| == |s|
    ensures forall i :: 0 <= i < |s| ==> r[i] == LowerChar(s[i])
  {
    seq(|s|, i requires 0 <= i < |s| => LowerChar(s[i]))
  }

  /** `s.split(sep)[-1]`: the text after the last `sep`, or all of `s` when it has none. */
  function AfterLast(s: string, sep: char): (r: string)
    ensures sep !in r
    ensures |r| <= |s| && r == s[|s| - |r|..]
    ensures sep in s ==> |r| < |s| && s[|s| - |r| - 1] == sep
    ensures sep !in s ==> r == s
  {
    if s == [] then []
    else if s[|s| - 1] == sep then []
    else
      var init := s[..|s| - 1];
      var rest := AfterLast(init, sep);
      AfterLastStep(s, sep, init, rest);
      rest + [s[|s| - 1]]
  }

  /** The step of `AfterLast` past a last character that is not the separator. */
  lemma AfterLastStep(s: string, sep: char, init: string, rest: string)
    requires s != [] && s[|s| - 1] != sep && init == s[..|s| - 1]
    requires sep !in rest
    requires |rest| <= |init| && rest == init[|init| - |rest|..]
    requires sep in init ==> |rest| < |init| && init[|init| - |rest| - 1] == sep
    requires sep !in init ==> rest == init
    ensures var r := rest + [s[|s| - 1]];
            && sep !in r
            && |r| <= |s| && r == s[|s| - |r|..]
            && (sep in s ==> |r| < |s| && s[|s| - |r| - 1] == sep)
            && (sep !in s ==> r == s)
  {
    var last := s[|s| - 1];
    assert s == init + [last];
    assert s[|s| - |rest| - 1..] == init[|init| - |rest|..] + [last];
    assert sep in s ==> sep in init;
  }

  /** `s.split(sep, 1)[1]`: the text after the first `sep`. */
  function AfterFirst(s: string, sep: char): (r: string)
    requires sep in s
    ensures |r| < |s| && r == s[|s| - |r|..]
    ensures s[|s| - |r| - 1] == sep && sep !in s[..|s| - |r| - 1]
  {
    if s[0] == sep then s[1..] else AfterFirst(s[1..], sep)
  }

  predicate IsDigit(c: char)
  {
    '0' <= c <= '9'
  }

  function DigitValue(c: char): (d: nat)
    requires IsDigit(c)
    ensures d < 10
  {
    c as int - '0' as int
  }

  function DigitChar(d: nat): (c: char)
    requires d < 10
    ensures IsDigit(c) && DigitValue(c) == d
  {
    ('0' as int + d) as char
  }

  /**
   * The digit part of a Python base-10 integer literal: digits, where a single
   * underscore may separate two digits (`1_000`).
   */
  predicate IsDigitPart(s: string)
  {
    |s| > 0 && IsDigit(s[0]) &&
    forall i :: 0 <= i < |s| && !IsDigit(s[i]) ==> s[i] == '_' && i + 1 < |s| && IsDigit(s[i + 1])
  }

  /** The number the digits of `s` spell, underscores skipped. */
  function DigitsValue(s: string): nat
  {
    if s == [] then 0
    else if IsDigit(s[|s| - 1]) then 10 * DigitsValue(s[..|s| - 1]) + DigitValue(s[|s| - 1])
    else DigitsValue(s[..|s| - 1])
  }

  /**
   * CPython's default limit on the number of decimal digits `int()` reads and
   * `str()` writes (`sys.get_int_max_str_digits()`); longer ones raise `ValueError`.
   */
  const MaxStrDigits := 4300

  /** How many digits `s` holds, underscores not counted. */
  function DigitCount(s: string): nat
  {
    if s == [] then 0
    else if IsDigit(s[|s| - 1]) then DigitCount(s[..|s| - 1]) + 1
    else DigitCount(s[..|s| - 1])
  }

  /** `t` without its leading sign, if it has one. */
  function Unsigned(t: string): string
  {
    if |t| > 0 && (t[0] == '-' || t[0] == '+') then t[1..] else t
  }

  /**
   * The base-10 literals `int()` accepts once whitespace is stripped: one
   * optional sign, then a digit part of at most `MaxStrDigits` digits.
   */
  predicate IsIntLiteral(t: string)
  {
    IsDigitPart(Unsigned(t)) && DigitCount(Unsigned(t)) <= MaxStrDigits
  }

  /**
   * U+001C to U+001F: `isspace()` holds for them, but `int()` keeps every
   * character below 127 as it is and skips only ASCII blanks (`Py_ISSPACE`:
   * space and `\t` to `\r`), so one of these anywhere makes `int()` fail.
   * Whitespace at or above 127 becomes a blank first, and is skipped.
   */
  predicate IsInformationSeparator(c: char)
  {
    '\U{1c}' <= c <= '\U{1f}'
  }

  predicate FreeOfSeparators(s: string)
  {
    forall i :: 0 <= i < |s| ==> !IsInformationSeparator(s[i])
  }

  /**
   * `int(s)` for base 10: a string holding an information separator is a
   * `ValueError`; otherwise surrounding whitespace is ignored, then a literal
   * as `IsIntLiteral` describes; anything else is a `ValueError`, here `None`.
   */
  function ParseInt(s: string): (r: Option<int>)
    ensures r.Some? <==> FreeOfSeparators(s) && IsIntLiteral(Strip(s))
    ensures r.Some? ==>
              Strip(s) != [] &&
              (r.value < 0 ==> Strip(s)[0] == '-') &&
              (Strip(s)[0] == '-' ==> r.value <= 0) &&
              (if r.value < 0 then -r.value else r.value) == DigitsValue(Unsigned(Strip(s)))
  {
    if FreeOfSeparators(s) then ParseLiteral(Strip(s)) else None
  }

  /** `int(t)` for a `t` with no surrounding whitespace. */
  function ParseLiteral(t: string): Option<int>
  {
    if IsIntLiteral(t) then
      var magnitude: int := DigitsValue(Unsigned(t));
      Some(if t[0] == '-' then -magnitude else magnitude)
    else None
  }

  /** `str(n)` for a non-negative integer: its decimal digits, most significant first. */
  function FormatNat(n: nat): (s: string)
    ensures |s| > 0 && forall i :: 0 <= i < |s| ==> IsDigit(s[i])
    ensures s[0] == '0' ==> n == 0
    ensures |s| == 1 <==> n < 10
  {
    if n < 10 then [DigitChar(n)] else FormatNat(n / 10) + [DigitChar(n % 10)]
  }

  /** `str(n)`: a leading `-` for a negative number. */
  function FormatInt(n: int): (s: string)
    ensures |s| > 0 && (s[0] == '-' <==> n < 0)
    ensures forall i :: 0 <= i < |s| && (0 < i || 0 <= n) ==> IsDigit(s[i])
    ensures n < 0 ==> |s| > 1 && s[1] != '0'
    ensures 0 < n ==> s[0] != '0'
  {
    if n < 0 then "-" + FormatNat(-n) else FormatNat(n)
  }

  /** `str(n)` succeeds: the magnitude of `n` has at most `MaxStrDigits` digits. */
  predicate Printable(n: int)
  {
    |FormatNat(if n < 0 then -n else n)| <= MaxStrDigits
  }

  lemma {:induction false} DigitsValueOfFormatNat(n: nat)
    ensures DigitsValue(FormatNat(n)) == n
    ensures DigitCount(FormatNat(n)) == |FormatNat(n)|
  {
    var s := FormatNat(n);
    if n >= 10 {
      DigitsValueOfFormatNat(n / 10);
      assert s[..|s| - 1] == FormatNat(n / 10);
    }
  }

  lemma DigitPartEnds(d: string)
    requires IsDigitPart(d)
    ensures IsDigit(d[0]) && IsDigit(d[|d| - 1])
    ensures FreeOfSeparators(d)
  {
  }

  /** A literal with no surrounding whitespace and no information separator is what `int()` parses. */
  lemma ParseUnpadded(t: string)
    requires t != [] && !IsSpace(t[0]) && !IsSpace(t[|t| - 1]) && FreeOfSeparators(t)
    ensures ParseInt(t) == ParseLiteral(t)
  {
    assert Strip(t) == t;
  }

  /** A bare digit part within the digit limit parses to the number it spells. */
  lemma ParseDigitPart(d: string)
    requires IsDigitPart(d) && DigitCount(d) <= MaxStrDigits
    ensures ParseInt(d) == Some(DigitsValue(d))
  {
    DigitPartEnds(d);
    assert Unsigned(d) == d;
    assert ParseLiteral(d) == Some(DigitsValue(d));
    ParseUnpadded(d);
  }

  /** A `-` followed by a digit part within the limit parses to the negated number. */
  lemma ParseNegatedDigitPart(d: string)
    requires IsDigitPart(d) && DigitCount(d) <= MaxStrDigits
    ensures ParseInt("-" + d) == Some(-(DigitsValue(d) as int))
  {
    DigitPartEnds(d);
    var s := "-" + d;
    assert Unsigned(s) == d;
    assert ParseLiteral(s) == Some(-(DigitsValue(d) as int));
    assert s[0] == '-' && s[|s| - 1] == d[|d| - 1];
    assert FreeOfSeparators(s) by {
      forall i | 1 <= i < |s| ensures !IsInformationSeparator(s[i]) {
        assert s[i] == d[i - 1];
      }
    }
    ParseUnpadded(s);
  }

  /** A digit part longer than the limit is a `ValueError`, whatever its value. */
  lemma ParseOverLongRefused(d: string)
    requires IsDigitPart(d) && DigitCount(d) > MaxStrDigits
    ensures ParseInt(d) == None
  {
    DigitPartEnds(d);
    ParseUnpadded(d);
  }

  /**
   * `strip()` removes a leading U+001C, yet `int()` refuses the string: the
   * separator is not one of the blanks `int()` skips.
   */
  lemma ParseSeparatorRefused()
    ensures Strip("\U{1c}7") == "7"
    ensures ParseInt("\U{1c}7") == None
  {
    assert "\U{1c}7"[1..] == "7";
    assert !FreeOfSeparators("\U{1c}7") by {
      assert IsInformationSeparator("\U{1c}7"[0]);
    }
  }

  /** `int(str(n)) == n` wherever `str(n)` succeeds: what `str` prints, `int` reads back. */
  lemma ParseFormatRoundTrip(n: int)
    requires Printable(n)
    ensures ParseInt(FormatInt(n)) == Some(n)
  {
    var m: nat := if n < 0 then -n else n;
    var digits := FormatNat(m);
    DigitsValueOfFormatNat(m);
    assert IsDigitPart(digits);
    if n < 0 {
      ParseNegatedDigitPart(digits);
    } else {
      ParseDigitPart(digits);
    }
  }
}
