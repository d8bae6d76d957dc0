/**
 * The pieces of Python's `str` and `int` that the scorer relies on:
 * whitespace as `str.isspace()` and the `\s` of `re` define it, ASCII letters,
 * digits and word characters, `str.strip()`, `str.lower()`, `str.endswith()`
 * and `int()` on a decimal literal.
 */
module PyStr {
  import opened Wrappers

  /** `str.isspace()`, which is also what `\s` and `str.strip()` use on `str` values. */
  predicate IsSpace(c: char) {
    ('\U{9}' <= c <= '\U{D}') || ('\U{1C}' <= c <= ' ') || c == '\U{85}' || c == '\U{A0}'
    || c == '\U{1680}' || ('\U{2000}' <= c <= '\U{200A}') || c == '\U{2028}' || c == '\U{2029}'
    || c == '\U{202F}' || c == '\U{205F}' || c == '\U{3000}'
  }

  predicate IsUpper(c: char) { 'A' <= c <= 'Z' }

  predicate IsLower(c: char) { 'a' <= c <= 'z' }

  predicate IsAsciiLetter(c: char) { IsUpper(c) || IsLower(c) }

  predicate IsDigit(c: char) { '0' <= c <= '9' }

  /** `\w` restricted to ASCII: letters, digits and the underscore. */
  predicate IsWordChar(c: char) { IsAsciiLetter(c) || IsDigit(c) || c == '_' }

  function Lower(c: char): (r: char)
    ensures !IsUpper(r)
    ensures IsAsciiLetter(r) <==> IsAsciiLetter(c)
    ensures !IsUpper(c) ==> r == c
  {
    if IsUpper(c) then c - 'A' + 'a' else c
  }

  function Upper(c: char): (r: char)
    ensures !IsLower(r)
    ensures IsAsciiLetter(r) <==> IsAsciiLetter(c)
    ensures Lower(r) == Lower(c)
  {
    if IsLower(c) then c - 'a' + 'A' else c
  }

  /** `str.lower()` over ASCII: every character is passed through `Lower`. */
  function LowerStr(s: string): (r: string)
    ensures |r| == |s|
    ensures forall k :: 0 <= k < |s| ==> r[k] == Lower(s[k])
  {
    if s == [] then [] else [Lower(s[0])] + LowerStr(s[1..])
  }

  predicate EndsWith(s: string, suffix: string) {
    |suffix| <= |s| && s[|s| - |suffix|..] == suffix
  }

  /** Index of the first character that is not whitespace (`|s|` if there is none). */
  function ContentStart(s: string): (i: nat)
    ensures i <= |s|
    ensures forall k :: 0 <= k < i ==> IsSpace(s[k])
    ensures i == |s| || !IsSpace(s[i])
  {
    if s != [] && IsSpace(s[0]) then 1 + ContentStart(s[1..]) else 0
  }

  /** Index just past the last character that is not whitespace (`0` if there is none). */
  function ContentEnd(s: string): (j: nat)
    ensures j <= |s|
    ensures forall k :: j <= k < |s| ==> IsSpace(s[k])
    ensures j == 0 || !IsSpace(s[j - 1])
  {
    if s != [] && IsSpace(s[|s| - 1]) then ContentEnd(s[..|s| - 1]) else |s|
  }

  /**
   * `str.strip()`: the text between the leading and the trailing whitespace.
   * The result is the infix of `s` that starts at `ContentStart(s)`, everything
   * around it is whitespace, and it neither starts nor ends with whitespace.
   */
  function Strip(s: string): (r: string)
    ensures ContentStart(s) + |r| <= |s|
    ensures r == s[ContentStart(s)..ContentStart(s) + |r|]
    ensures forall k :: ContentStart(s) + |r| <= k < |s| ==> IsSpace(s[k])
    ensures r == [] || (!IsSpace(r[0]) && !IsSpace(r[|r| - 1]))
    ensures r == [] <==> forall k :: 0 <= k < |s| ==> IsSpace(s[k])
  {
    var i, j := ContentStart(s), ContentEnd(s);
    if i < j then s[i..j] else []
  }

  /** `s` is its leading whitespace, its stripped form and its trailing whitespace, in this order. */
  lemma StripSplits(s: string)
    ensures s == s[..ContentStart(s)] + Strip(s) + s[ContentStart(s) + |Strip(s)|..]
  {
    var i := ContentStart(s);
    var j := i + |Strip(s)|;
    assert Strip(s) == s[i..j];
    SplitAt(s, i, j);
  }

  /** Cutting a sequence at two positions and joining the three pieces gives it back. */
  lemma SplitAt(s: string, i: nat, j: nat)
    requires i <= j <= |s|
    ensures s == s[..i] + s[i..j] + s[j..]
  {
    assert s[..i] + s[i..j] == s[..j];
  }

  /** Stripping text that has no surrounding whitespace changes nothing. */
  lemma StripTrimmed(s: string)
    requires s == [] || (!IsSpace(s[0]) && !IsSpace(s[|s| - 1]))
    ensures Strip(s) == s
  {
    if s != [] {
      assert ContentStart(s) == 0;
      assert ContentEnd(s) == |s|;
    }
  }

  /** `str.strip()` is idempotent. */
  lemma StripIdempotent(s: string)
    ensures Strip(Strip(s)) == Strip(s)
  {
    StripTrimmed(Strip(s));
  }

  /** `strip()` removes exactly the whitespace put around a text that has none at either end. */
  lemma StripPadded(pre: string, s: string, post: string)
    requires forall k :: 0 <= k < |pre| ==> IsSpace(pre[k])
    requires forall k :: 0 <= k < |post| ==> IsSpace(post[k])
    requires s != [] && !IsSpace(s[0]) && !IsSpace(s[|s| - 1])
    ensures Strip(pre + s + post) == s
  {
    var t := pre + s + post;
    var r := Strip(t);
    assert t[|pre|] == s[0];
    assert forall k :: 0 <= k < |pre| ==> t[k] == pre[k];
    assert ContentStart(t) == |pre|;
    assert t[|pre| + |s| - 1] == s[|s| - 1];
    assert forall k :: |pre| + |s| <= k < |t| ==> t[k] == post[k - |pre| - |s|];
    assert |r| == |s|;
    assert t[|pre|..|pre| + |s|] == s;
  }

  /** Every character of the stripped text is a character of the text, at its offset. */
  lemma StripChars(s: string, k: nat)
    requires k < |Strip(s)|
    ensures ContentStart(s) + k < |s| && Strip(s)[k] == s[ContentStart(s) + k]
  {
  }

  predicate IsDecimal(s: string) {
    |s| > 0 && forall k :: 0 <= k < |s| ==> IsDigit(s[k])
  }

  /** The value of a run of ASCII digits, most significant first. */
  function DigitsValue(s: string): (n: nat)
    requires forall k :: 0 <= k < |s| ==> IsDigit(s[k])
  {
    if s == [] then 0
    else
      assert IsDigit(s[|s| - 1]);
      10 * DigitsValue(s[..|s| - 1]) + (s[|s| - 1] as int - '0' as int)
  }

  /**
   * `int(s)` for an already-stripped `s`: an optional `+` or `-` sign followed by one
   * or more ASCII digits; anything else is the `ValueError` that `None` stands for.
   * Every text of that shape is accepted, leading zeros and a `+` included.
   */
  function ParseInt(s: string): (r: Option<int>)
    ensures r.Some? ==> |s| > 0 && (IsDigit(s[0]) || s[0] == '+' || s[0] == '-')
    ensures r.Some? && r.value < 0 ==> s[0] == '-'
    ensures r.Some? ==> |s| >= 2 || IsDigit(s[0])
    ensures r.Some? ==> forall k :: 0 < k < |s| ==> IsDigit(s[k])
    ensures (IsDecimal(s) || (|s| >= 2 && (s[0] == '+' || s[0] == '-') && IsDecimal(s[1..]))) ==> r.Some?
  {
    if |s| > 0 && (s[0] == '+' || s[0] == '-') then
      if IsDecimal(s[1..]) then
        var magnitude: int := DigitsValue(s[1..]);
        Some(if s[0] == '-' then -magnitude else magnitude)
      else None
    else if IsDecimal(s) then Some(DigitsValue(s))
    else None
  }

  /** The decimal rendering of a natural number (Python's `str(n)`). */
  function Decimal(n: nat): (s: string)
    ensures IsDecimal(s)
  {
    if n < 10 then [('0' as int + n) as char]
    else Decimal(n / 10) + [('0' as int + n % 10) as char]
  }

  lemma {:induction false} DigitsOfDecimal(n: nat)
    ensures DigitsValue(Decimal(n)) == n
  {
    var s := Decimal(n);
    if n >= 10 {
      DigitsOfDecimal(n / 10);
      assert s[..|s| - 1] == Decimal(n / 10);
    }
  }

  /** Python's `str(n)` for an integer: the decimal form, with a leading `-` when negative. */
  function IntStr(n: int): (s: string)
    ensures s != [] && !IsSpace(s[0]) && !IsSpace(s[|s| - 1])
  {
    if n >= 0 then Decimal(n) else "-" + Decimal(-n)
  }

  /** `int(str(n)) == n` for every integer, positive or negative. */
  lemma ParseDecimal(n: int)
    ensures n >= 0 ==> ParseInt(Decimal(n)) == Some(n)
    ensures n < 0 ==> ParseInt("-" + Decimal(-n)) == Some(n)
    ensures ParseInt(IntStr(n)) == Some(n)
  {
    if n >= 0 {
      DigitsOfDecimal(n);
    } else {
      DigitsOfDecimal(-n);
      assert ("-" + Decimal(-n))[1..] == Decimal(-n);
    }
  }

  /** A leading zero does not change the value of a run of digits. */
  lemma {:induction false} LeadingZeroDigits(s: string)
    requires forall k :: 0 <= k < |s| ==> IsDigit(s[k])
    ensures DigitsValue("0" + s) == DigitsValue(s)
  {
    if s != [] {
      var t := "0" + s;
      assert t[..|t| - 1] == "0" + s[..|s| - 1];
      LeadingZeroDigits(s[..|s| - 1]);
    }
  }

  /** `int()` accepts the forms `str(n)` never produces: `int("+7") == int("007") == 7`. */
  lemma ParseNonCanonical(n: nat)
    ensures ParseInt("+" + Decimal(n)) == Some(n)
    ensures ParseInt("0" + Decimal(n)) == Some(n)
  {
    DigitsOfDecimal(n);
    assert ("+" + Decimal(n))[1..] == Decimal(n);
    LeadingZeroDigits(Decimal(n));
  }
}
