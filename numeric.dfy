/**
 * The part of pandas' `to_numeric(..., errors='coerce')` the dashboards rely on:
 * text holding an optionally signed decimal integer, possibly surrounded by
 * spaces, is a number; any other text is "not a number" (None).
 * Also the decimal text Python's `str` writes for an integer, its inverse.
 */
module Numeric {
  import opened Wrappers

  predicate IsDigit(c: char) {
    '0' <= c <= '9'
  }

  predicate AllDigits(s: string) {
    forall i :: 0 <= i < |s| ==> IsDigit(s[i])
  }

  function DigitValue(c: char): nat
    requires IsDigit(c)
  {
    c as int - '0' as int
  }

  function DigitChar(d: nat): (c: char)
    requires d < 10
    ensures IsDigit(c) && DigitValue(c) == d
  {
    ('0' as int + d) as char
  }

  /** The value of a string of decimal digits, most significant digit first. */
  function DigitsValue(s: string): nat
    requires AllDigits(s)
  {
    if s == [] then 0 else DigitsValue(s[..|s| - 1]) * 10 + DigitValue(s[|s| - 1])
  }

  /** The text after an optional leading `+` or `-`. */
  function Unsigned(s: string): (u: string)
    ensures |u| <= |s|
  {
    if |s| > 0 && (s[0] == '+' || s[0] == '-') then s[1..] else s
  }

  /** An optionally signed, non-empty run of decimal digits: "2022", "+7", "-15". */
  predicate IsIntegerText(s: string) {
    |Unsigned(s)| > 0 && AllDigits(Unsigned(s))
  }

  /** The integer such a text denotes: the value of its digits, negated after a minus sign. */
  function IntegerValue(s: string): int
    requires IsIntegerText(s)
  {
    if s[0] == '-' then -(DigitsValue(Unsigned(s)) as int) else DigitsValue(Unsigned(s))
  }

  /** Parses an optionally signed decimal integer; anything else is None. */
  function ParseInteger(s: string): (r: Option<int>)
    ensures r.Some? <==> IsIntegerText(s)
    ensures r.Some? ==> r.value == IntegerValue(s)
  {
    if |s| > 0 && (s[0] == '+' || s[0] == '-') then
      if |s| > 1 && AllDigits(s[1..]) then
        var magnitude: int := DigitsValue(s[1..]);
        Some(if s[0] == '-' then -magnitude else magnitude)
      else
        None
    else if |s| > 0 && AllDigits(s) then
      Some(DigitsValue(s))
    else
      None
  }

  /** The value of a sign (empty, `+` or `-`) followed by a run of digits. */
  lemma SignedDigitsValue(sign: string, d: string)
    requires sign == "" || sign == "+" || sign == "-"
    requires d != [] && AllDigits(d)
    ensures IsIntegerText(sign + d)
    ensures IntegerValue(sign + d) == if sign == "-" then -(DigitsValue(d) as int) else DigitsValue(d)
  {
    if sign != "" {
      assert (sign + d)[1..] == d;
    } else {
      assert sign + d == d;
    }
  }

  /** `s` without its leading spaces. */
  function TrimLeft(s: string): (r: string)
    ensures |r| <= |s| && r == s[|s| - |r|..]
    ensures forall k :: 0 <= k < |s| - |r| ==> s[k] == ' '
    ensures r == [] || r[0] != ' '
  {
    if s != [] && s[0] == ' ' then TrimLeft(s[1..]) else s
  }

  /** `s` without its trailing spaces. */
  function TrimRight(s: string): (r: string)
    ensures |r| <= |s| && r == s[..|r|]
    ensures forall k :: |r| <= k < |s| ==> s[k] == ' '
    ensures r == [] || r[|r| - 1] != ' '
  {
    if s != [] && s[|s| - 1] == ' ' then TrimRight(s[..|s| - 1]) else s
  }

  function TrimSpaces(s: string): string {
    TrimRight(TrimLeft(s))
  }

  /** `k` spaces. */
  function Spaces(k: nat): (s: string)
    ensures |s| == k && forall i :: 0 <= i < k ==> s[i] == ' '
  {
    seq(k, _ => ' ')
  }

  /** Trimming removes exactly the padding around text that neither starts nor ends with a space. */
  lemma {:induction false} TrimPadding(k: nat, w: string, m: nat)
    requires w != [] && w[0] != ' ' && w[|w| - 1] != ' '
    ensures TrimSpaces(Spaces(k) + w + Spaces(m)) == w
  {
    var tail := w + Spaces(m);
    assert tail[0] == w[0];
    assert Spaces(k) + w + Spaces(m) == Spaces(k) + tail;
    TrimLeftPadding(k, tail);
    TrimRightPadding(w, m);
  }

  lemma {:induction false} TrimLeftPadding(k: nat, w: string)
    requires w != [] && w[0] != ' '
    ensures TrimLeft(Spaces(k) + w) == w
  {
    if k > 0 {
      assert (Spaces(k) + w)[1..] == Spaces(k - 1) + w;
      TrimLeftPadding(k - 1, w);
    } else {
      assert Spaces(k) + w == w;
    }
  }

  lemma {:induction false} TrimRightPadding(w: string, m: nat)
    requires w != [] && w[|w| - 1] != ' '
    ensures TrimRight(w + Spaces(m)) == w
  {
    if m > 0 {
      assert (w + Spaces(m))[..|w + Spaces(m)| - 1] == w + Spaces(m - 1);
      TrimRightPadding(w, m - 1);
    } else {
      assert w + Spaces(m) == w;
    }
  }

  /** `pd.to_numeric(s, errors='coerce')` on one text cell, restricted to integers. */
  function ParseNumber(s: string): (r: Option<int>)
    ensures r.Some? <==> IsIntegerText(TrimSpaces(s))
  {
    ParseInteger(TrimSpaces(s))
  }

  /** The decimal digits Python's `str` writes for a non-negative integer. */
  function NatToText(n: nat): (s: string)
    ensures |s| > 0 && AllDigits(s)
    ensures DigitsValue(s) == n
  {
    if n < 10 then
      [DigitChar(n)]
    else
      var prefix := NatToText(n / 10);
      var s := prefix + [DigitChar(n % 10)];
      assert s[..|s| - 1] == prefix;
      s
  }

  /** `str(n)` for an integer: a minus sign, then the digits of its magnitude. */
  function IntToText(n: int): (s: string)
    ensures IsIntegerText(s) && IntegerValue(s) == n
    ensures s[0] != '+' && s[0] != ' ' && s[|s| - 1] != ' '
  {
    if n < 0 then
      var s := "-" + NatToText(-n);
      assert s[1..] == NatToText(-n);
      s
    else
      NatToText(n)
  }

  /** `str` writes no leading zero: only 0 itself starts with `0`. */
  lemma {:induction false} NatToTextCanonical(n: nat)
    ensures NatToText(n)[0] == '0' <==> n == 0
  {
    if n >= 10 {
      NatToTextCanonical(n / 10);
      assert NatToText(n)[0] == NatToText(n / 10)[0];
    }
  }

  /** `str(n)` writes 0 as "0" and no other integer with a leading zero, and `-` only before a negative one. */
  lemma IntToTextCanonical(n: int)
    ensures IntToText(n) == "0" <==> n == 0
    ensures IntToText(n)[0] == '0' ==> n == 0
    ensures IntToText(n)[0] == '-' <==> n < 0
    ensures n < 0 ==> IntToText(n)[1] != '0'
  {
    NatToTextCanonical(if n < 0 then -n else n);
    if n < 0 {
      assert IntToText(n)[1..] == NatToText(-n);
    }
  }

  /** Parsing the text Python writes for an integer gives the integer back. */
  lemma ParseIntToText(n: int)
    ensures ParseNumber(IntToText(n)) == Some(n)
  {
    NoSpacesTrim(IntToText(n));
  }

  /**
   * A cell holding an optionally signed run of digits, with any number of
   * spaces around it, parses to the value of the digits, negated after `-`.
   */
  lemma ParsePaddedInteger(k: nat, sign: string, d: string, m: nat)
    requires sign == "" || sign == "+" || sign == "-"
    requires d != [] && AllDigits(d)
    ensures ParseNumber(Spaces(k) + sign + d + Spaces(m)) ==
      Some(if sign == "-" then -(DigitsValue(d) as int) else DigitsValue(d))
  {
    var w := sign + d;
    SignedDigitsValue(sign, d);
    ParsePadded(k, w, m);
    ConcatAssociative(Spaces(k), sign, d);
  }

  lemma ConcatAssociative(a: string, b: string, c: string)
    ensures a + b + c == a + (b + c)
  {
  }

  /** Spaces around an integer text do not change its value. */
  lemma ParsePadded(k: nat, w: string, m: nat)
    requires IsIntegerText(w)
    ensures ParseNumber(Spaces(k) + w + Spaces(m)) == Some(IntegerValue(w))
  {
    var u := Unsigned(w);
    assert w[|w| - 1] == u[|u| - 1] && IsDigit(u[|u| - 1]);
    assert w[0] == '+' || w[0] == '-' || w[0] == u[0];
    assert IsDigit(u[0]);
    TrimPadding(k, w, m);
  }

  /** Text that neither starts nor ends with a space is its own trimmed form. */
  lemma NoSpacesTrim(s: string)
    requires s != [] && s[0] != ' ' && s[|s| - 1] != ' '
    ensures TrimSpaces(s) == s
  {
    assert TrimLeft(s) == s;
  }

  /** A plain run of digits parses to its value. */
  lemma ParseDigits(s: string)
    requires s != [] && AllDigits(s)
    ensures ParseNumber(s) == Some(DigitsValue(s))
  {
    assert IsDigit(s[0]) && IsDigit(s[|s| - 1]);
    NoSpacesTrim(s);
  }

  /** A run of digits after a space parses to its value. */
  lemma ParseSpacedDigits(s: string)
    requires s != [] && AllDigits(s)
    ensures ParseNumber(" " + s) == Some(DigitsValue(s))
  {
    ParseNumberIgnoresLeadingSpace(s);
    ParseDigits(s);
  }

  /** A leading space does not change what a cell parses to. */
  lemma ParseNumberIgnoresLeadingSpace(s: string)
    ensures ParseNumber(" " + s) == ParseNumber(s)
  {
    assert (" " + s)[1..] == s;
  }
}
