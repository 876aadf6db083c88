/**
  The Python string built-ins the movie manager relies on: `strip()`,
  `lower()`, `isdigit()`, the `in` operator on strings, and the texts that
  `int()` and `float()` accept.
 */
module PyText {
  import opened Wrappers

  /** `str.isspace()` for one character: what `strip()` without arguments removes. */
  predicate IsSpace(c: char) {
    || c == ' '
    || '\t' <= c <= '\r'
    || '\U{1c}' <= c <= '\U{1f}'
    || c == '\U{85}' || c == '\U{a0}' || c == '\U{1680}'
    || '\U{2000}' <= c <= '\U{200a}'
    || c == '\U{2028}' || c == '\U{2029}' || c == '\U{202f}' || c == '\U{205f}' || c == '\U{3000}'
  }

  /** Drops the leading white space: the result is a suffix of `s`. */
  function TrimStart(s: string): (r: string)
    ensures |r| <= |s| && r == s[|s| - |r|..]
    ensures forall k | 0 <= k < |s| - |r| :: IsSpace(s[k])
    ensures r == [] || !IsSpace(r[0])
  {
    if |s| > 0 && IsSpace(s[0]) then TrimStart(s[1..]) else s
  }

  /** Drops the trailing white space: the result is a prefix of `s`. */
  function TrimEnd(s: string): (r: string)
    ensures |r| <= |s| && r == s[..|r|]
    ensures forall k | |r| <= k < |s| :: IsSpace(s[k])
    ensures r == [] || !IsSpace(r[|r| - 1])
  {
    if |s| > 0 && IsSpace(s[|s| - 1]) then TrimEnd(s[..|s| - 1]) else s
  }

  /** `str.strip()`: `s` with all white space removed from both ends. */
  function Strip(s: string): (r: string)
    ensures r == [] || (!IsSpace(r[0]) && !IsSpace(r[|r| - 1]))
  {
    TrimEnd(TrimStart(s))
  }

  /** What `strip()` removes is white space, and what it keeps is a contiguous part of `s`. */
  lemma StripKeepsMiddle(s: string)
    ensures exists i | 0 <= i <= |s| - |Strip(s)| ::
              && Strip(s) <= s[i..]
              && (forall k | 0 <= k < i :: IsSpace(s[k]))
              && (forall k | i + |Strip(s)| <= k < |s| :: IsSpace(s[k]))
  {
    var t := TrimStart(s);
    var r := TrimEnd(t);
    var i := |s| - |t|;
    assert r <= s[i..] by {
      assert t == s[i..];
    }
    forall k | i + |r| <= k < |s|
      ensures IsSpace(s[k])
    {
      assert s[k] == t[k - i];
    }
  }

  /** Stripping twice is stripping once. */
  lemma StripIdempotent(s: string)
    ensures Strip(Strip(s)) == Strip(s)
  {
    var r := Strip(s);
    assert TrimStart(r) == r;
    assert TrimEnd(r) == r;
  }

  /** `str.lower()` on one character, for the ASCII letters. */
  function LowerChar(c: char): char {
    if 'A' <= c <= 'Z' then (c as int + 32) as char else c
  }

  /** `str.lower()`, character by character. */
  function Lower(s: string): (r: string)
    ensures |r| == |s|
    ensures forall i | 0 <= i < |s| :: r[i] == LowerChar(s[i])
  {
    if s == [] then [] else [LowerChar(s[0])] + Lower(s[1..])
  }

  predicate IsDigit(c: char) {
    '0' <= c <= '9'
  }

  predicate AllDigits(s: string) {
    forall i | 0 <= i < |s| :: IsDigit(s[i])
  }

  /** `str.isdigit()` (ASCII digits): non-empty, and every character a digit. */
  predicate IsDigits(s: string) {
    |s| > 0 && AllDigits(s)
  }

  /** The number a string of decimal digits denotes. */
  function DigitsValue(s: string): nat
    requires AllDigits(s)
  {
    if s == [] then 0 else DigitsValue(s[..|s| - 1]) * 10 + (s[|s| - 1] as int - '0' as int)
  }

  function DigitChar(d: nat): (c: char)
    requires d < 10
    ensures IsDigit(c) && c as int - '0' as int == d
  {
    ('0' as int + d) as char
  }

  /** `str(n)` for a natural number: its shortest decimal digits. */
  function NatToDigits(n: nat): (s: string)
    ensures IsDigits(s)
  {
    if n < 10 then [DigitChar(n)] else NatToDigits(n / 10) + [DigitChar(n % 10)]
  }

  /** Reading back the digits of `n` gives `n`. */
  lemma {:induction false} DigitsRoundTrip(n: nat)
    ensures DigitsValue(NatToDigits(n)) == n
  {
    var s := NatToDigits(n);
    if n >= 10 {
      DigitsRoundTrip(n / 10);
      assert s[..|s| - 1] == NatToDigits(n / 10);
    }
  }

  /** `str(i)` for an integer: digits with a leading '-' when negative. */
  function IntToText(i: int): string {
    if i < 0 then "-" + NatToDigits(-i) else NatToDigits(i)
  }

  /** The integer `int(s)` returns, or None where `int(s)` raises ValueError. */
  function ParseInt(s: string): Option<int> {
    var t := Strip(s);
    if |t| > 0 && (t[0] == '+' || t[0] == '-') then
      if IsDigits(t[1..]) then
        Some(if t[0] == '-' then -(DigitsValue(t[1..]) as int) else DigitsValue(t[1..]))
      else None
    else if IsDigits(t) then Some(DigitsValue(t))
    else None
  }

  /** `int(str(i)) == i`. */
  lemma ParseIntRoundTrip(i: int)
    ensures ParseInt(IntToText(i)) == Some(i)
  {
    var s := IntToText(i);
    StripDigitsText(i);
    if i < 0 {
      assert s[1..] == NatToDigits(-i);
      DigitsRoundTrip(-i);
    } else {
      DigitsRoundTrip(i);
    }
  }

  /** A text without white space at its ends is left alone by `strip()`. */
  lemma StripUnpadded(s: string)
    requires s == [] || (!IsSpace(s[0]) && !IsSpace(s[|s| - 1]))
    ensures Strip(s) == s
  {
    assert TrimStart(s) == s;
    assert TrimEnd(s) == s;
  }

  lemma StripDigitsText(i: int)
    ensures Strip(IntToText(i)) == IntToText(i)
  {
    var s := IntToText(i);
    var d := NatToDigits(if i < 0 then -i else i);
    assert IsDigit(d[0]) && IsDigit(d[|d| - 1]);
    assert s[|s| - 1] == d[|d| - 1];
    StripUnpadded(s);
  }

  function Pow10(n: nat): (p: nat)
    ensures p >= 1
  {
    if n == 0 then 1 else 10 * Pow10(n - 1)
  }

  /** The position of the first '.' in `s`, or |s| when there is none. */
  function DotIndex(s: string): (k: nat)
    ensures k <= |s|
    ensures forall j | 0 <= j < k :: s[j] != '.'
    ensures k < |s| ==> s[k] == '.'
  {
    if s == [] || s[0] == '.' then 0 else 1 + DotIndex(s[1..])
  }

  /** An unsigned decimal: digits, at most one '.', and at least one digit in all. */
  function DecimalValue(s: string): Option<real> {
    var k := DotIndex(s);
    if k == |s| then
      if IsDigits(s) then Some(DigitsValue(s) as real) else None
    else
      var whole, fraction := s[..k], s[k + 1..];
      if AllDigits(whole) && AllDigits(fraction) && |whole| + |fraction| > 0 then
        Some(DigitsValue(whole) as real + DigitsValue(fraction) as real / Pow10(|fraction|) as real)
      else None
  }

  /** The number `float(s)` returns, or None where `float(s)` raises ValueError. */
  function ParseFloat(s: string): Option<real> {
    var t := Strip(s);
    if |t| > 0 && (t[0] == '+' || t[0] == '-') then
      match DecimalValue(t[1..])
      case None => None
      case Some(v) => Some(if t[0] == '-' then -v else v)
    else DecimalValue(t)
  }

  /** `float(str(i)) == i` for every integer `i`. */
  lemma ParseFloatOfInt(i: int)
    ensures ParseFloat(IntToText(i)) == Some(i as real)
  {
    var s := IntToText(i);
    var d := NatToDigits(if i < 0 then -i else i);
    StripDigitsText(i);
    assert s[if i < 0 then 1 else 0..] == d;
    NoDotInDigits(d);
    DigitsRoundTrip(if i < 0 then -i else i);
  }

  lemma NoDotInDigits(s: string)
    requires AllDigits(s)
    ensures DotIndex(s) == |s|
  {
    if s != [] {
      NoDotInDigits(s[1..]);
    }
  }

  /** A rating as OMDb writes it parses to its value. */
  lemma ParseFloatExample()
    ensures ParseFloat("8.8") == Some(8.8)
  {
    var s := "8.8";
    StripUnpadded(s);
    assert DotIndex(s) == 1 by {
      assert s[0] != '.' && s[1..][0] == '.';
    }
    assert s[..1] == "8" && s[2..] == "8";
    assert DigitsValue("8") == 8 by {
      assert "8"[..0] == "";
    }
    assert DecimalValue(s) == Some(8.0 + 8.0 / 10.0);
  }

  /** OMDb's "N/A" is not a number. */
  lemma ParseFloatNotANumber()
    ensures ParseFloat("N/A") == None
  {
    var s := "N/A";
    StripUnpadded(s);
    assert DotIndex(s) == 3 by {
      assert s[1..][1..][1..] == [];
    }
    assert !IsDigits(s) by {
      assert !IsDigit(s[0]);
    }
  }

  /** Python's `p in s` on strings: `p` occurs in `s` at some position. */
  ghost predicate IsSubstring(p: string, s: string) {
    exists i | 0 <= i <= |s| :: p <= s[i..]
  }

  /** The search Python runs for `p in s`, from left to right. */
  function Contains(s: string, p: string): bool {
    if p <= s then true
    else if |s| <= |p| then false
    else Contains(s[1..], p)
  }

  lemma {:induction false} ContainsIsSubstring(s: string, p: string)
    ensures Contains(s, p) <==> IsSubstring(p, s)
  {
    if p <= s {
      assert s[0..] == s;
    } else if |s| <= |p| {
      forall i | 0 <= i <= |s|
        ensures !(p <= s[i..])
      {
        assert i == 0 ==> s[i..] == s;
      }
    } else {
      ContainsIsSubstring(s[1..], p);
      if IsSubstring(p, s) {
        var i :| 0 <= i <= |s| && p <= s[i..];
        assert i != 0;
        assert s[1..][i - 1..] == s[i..];
      }
      if IsSubstring(p, s[1..]) {
        var i :| 0 <= i <= |s| - 1 && p <= s[1..][i..];
        assert s[1..][i..] == s[i + 1..];
      }
    }
  }

  /** The empty string is in every string. */
  lemma EmptyIsEverywhere(s: string)
    ensures Contains(s, "")
  {
  }
}
