/**
 * Python's `int(text)` for a base-10 string, and the decimal rendering
 * `str(n)` it inverts.
 */
module PyInt {
  import opened Wrappers
  import opened Text

  /** The whitespace `int()` skips around a number. CPython maps every
      non-ASCII whitespace character to a space but passes ASCII characters
      through and then skips only tab, line feed, vertical tab, form feed,
      carriage return and space, so U+001C..U+001F are not skipped. */
  predicate IsIntSpace(c: char) {
    IsSpace(c) && !('\U{1C}' <= c <= '\U{1F}')
  }

  predicate IsDigit(c: char) {
    '0' <= c <= '9'
  }

  /** The digits of an integer literal as `int()` accepts them: at least one
      ASCII digit, and every underscore sits between two digits. */
  predicate IsDigitString(s: string) {
    && |s| > 0
    && (forall i :: 0 <= i < |s| ==> IsDigit(s[i]) || s[i] == '_')
    && (forall i :: 0 <= i < |s| && s[i] == '_' ==> 0 < i < |s| - 1 && IsDigit(s[i - 1]) && IsDigit(s[i + 1]))
  }

  /** The value of a run of digits, underscores being ignored. */
  function DigitsValue(s: string): nat {
    if s == [] then 0
    else
      var rest := DigitsValue(s[..|s| - 1]);
      var c := s[|s| - 1];
      if IsDigit(c) then rest * 10 + (c as int - '0' as int) else rest
  }

  /** `int(s)`: `None` stands for the `ValueError` it raises. Only a text
      holding a decimal digit can parse. */
  function ParseInt(s: string): (r: Option<int>)
    ensures r.Some? ==> exists k :: 0 <= k < |s| && IsDigit(s[k])
  {
    var t := StripBy(s, IsIntSpace);
    var r := ParseSigned(t);
    assert r.Some? ==> exists k :: 0 <= k < |s| && IsDigit(s[k]) by {
      if r.Some? {
        var k :| 0 <= k < |t| && IsDigit(t[k]);
        StrippedAt(s, k);
        assert IsDigit(s[|s| - |StripStart(s, IsIntSpace)| + k]);
      }
    }
    r
  }

  /** Where a character of the stripped text sits in the original. */
  lemma StrippedAt(s: string, k: int)
    requires 0 <= k < |StripBy(s, IsIntSpace)|
    ensures var off := |s| - |StripStart(s, IsIntSpace)|;
      0 <= off + k < |s| && StripBy(s, IsIntSpace)[k] == s[off + k]
  {
    var t0 := StripStart(s, IsIntSpace);
    var t := StripEnd(t0, IsIntSpace);
    assert t[k] == t0[k];
  }

  /** An optional sign followed by digits, with nothing around them. */
  function ParseSigned(t: string): (r: Option<int>)
    ensures r.Some? ==> exists k :: 0 <= k < |t| && IsDigit(t[k])
  {
    if |t| > 0 && (t[0] == '+' || t[0] == '-') then
      var digits := t[1..];
      if IsDigitString(digits) then
        assert IsDigit(t[1]);
        var v: int := DigitsValue(digits);
        Some(if t[0] == '-' then -v else v)
      else None
    else if IsDigitString(t) then
      assert IsDigit(t[0]);
      Some(DigitsValue(t))
    else None
  }

  function DigitChar(d: nat): char
    requires d < 10
  {
    ('0' as int + d) as char
  }

  /** `str(n)` for a non-negative `n`. */
  function FormatNat(n: nat): (r: string)
    ensures |r| > 0
    ensures forall i :: 0 <= i < |r| ==> IsDigit(r[i])
  {
    if n < 10 then [DigitChar(n)] else FormatNat(n / 10) + [DigitChar(n % 10)]
  }

  /** `str(n)`: decimal digits, after a minus sign exactly when `n` is negative. */
  function FormatInt(n: int): (r: string)
    ensures |r| > 0 && (r[0] == '-' <==> n < 0)
    ensures forall i :: 0 <= i < |r| ==> IsDigit(r[i]) || (i == 0 && n < 0)
  {
    if n < 0 then "-" + FormatNat(-n) else FormatNat(n)
  }

  function Pow10(k: nat): nat {
    if k == 0 then 1 else 10 * Pow10(k - 1)
  }

  /** A number below `10^k` has at most `k` decimal digits. */
  lemma {:induction false} FormatNatShort(n: nat, k: nat)
    requires 0 < k && n < Pow10(k)
    ensures |FormatNat(n)| <= k
  {
    if n >= 10 {
      assert n / 10 < Pow10(k - 1);
      FormatNatShort(n / 10, k - 1);
    }
  }

  lemma {:induction false} FormatNatValue(n: nat)
    ensures DigitsValue(FormatNat(n)) == n
  {
    if n >= 10 {
      var s := FormatNat(n);
      assert s[..|s| - 1] == FormatNat(n / 10);
      FormatNatValue(n / 10);
    }
  }

  lemma DigitIsNotSpace(c: char)
    requires IsDigit(c)
    ensures !IsIntSpace(c) && c != '+' && c != '-'
  {
  }

  lemma AllDigitsIsDigitString(digits: string)
    requires |digits| > 0 && forall i :: 0 <= i < |digits| ==> IsDigit(digits[i])
    ensures IsDigitString(digits)
  {
  }

  /** Neither a digit string nor its negation has whitespace to strip. */
  lemma DigitsUnstripped(digits: string)
    requires |digits| > 0 && forall i :: 0 <= i < |digits| ==> IsDigit(digits[i])
    ensures StripBy(digits, IsIntSpace) == digits
    ensures StripBy("-" + digits, IsIntSpace) == "-" + digits
  {
    DigitIsNotSpace(digits[0]);
    DigitIsNotSpace(digits[|digits| - 1]);
    StripByUnchanged(digits, IsIntSpace);
    var f := "-" + digits;
    assert f[|f| - 1] == digits[|digits| - 1];
    StripByUnchanged(f, IsIntSpace);
  }

  lemma ParseUnsigned(digits: string)
    requires IsDigitString(digits) && IsDigit(digits[0])
    ensures ParseSigned(digits) == Some(DigitsValue(digits))
  {
    DigitIsNotSpace(digits[0]);
  }

  lemma ParseNegative(digits: string)
    requires IsDigitString(digits)
    ensures ParseSigned("-" + digits) == Some(-(DigitsValue(digits) as int))
  {
    assert ("-" + digits)[1..] == digits;
  }

  /** `int(str(n)) == n` for every integer: the round trip of a top-up
      amount written into an invoice payload. */
  lemma ParseFormatRoundTrip(n: int)
    ensures ParseInt(FormatInt(n)) == Some(n)
  {
    var m: nat := if n < 0 then -n else n;
    var digits := FormatNat(m);
    DigitsUnstripped(digits);
    AllDigitsIsDigitString(digits);
    FormatNatValue(m);
    if n < 0 {
      ParseNegative(digits);
    } else {
      ParseUnsigned(digits);
    }
  }

  /** A text without any digit never parses: `int()` raises on it. */
  lemma ParseNeedsDigit(s: string)
    requires forall k :: 0 <= k < |s| ==> !IsDigit(s[k])
    ensures ParseInt(s) == None
  {
  }
}
