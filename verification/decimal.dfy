/**
 * Amounts are kept in the log as decimal strings of base units (`amount.toString()` of a
 * BigInt) and handed back to the contract as strings. This module gives the canonical
 * spelling `toString()` produces and the digit-string reading the contract call applies.
 */
module Decimal {
  import opened Wrappers

  predicate IsDigit(c: char) {
    '0' <= c <= '9'
  }

  function DigitValue(c: char): nat
    requires IsDigit(c)
  {
    c as int - '0' as int
  }

  function DigitChar(d: nat): (c: char)
    requires d < 10
    ensures IsDigit(c) && DigitValue(c) == d
  {
    (d + '0' as int) as char
  }

  predicate AllDigits(s: string) {
    forall i :: 0 <= i < |s| ==> IsDigit(s[i])
  }

  /** The spelling `BigInt.prototype.toString()` gives: digits only, no leading zero. */
  predicate Canonical(s: string) {
    |s| > 0 && AllDigits(s) && (s[0] == '0' ==> |s| == 1)
  }

  /** The number a string of decimal digits denotes, leading zeros allowed. */
  function DigitsValue(s: string): nat
    requires AllDigits(s)
    decreases |s|
  {
    if |s| == 0 then 0 else DigitsValue(s[..|s| - 1]) * 10 + DigitValue(s[|s| - 1])
  }

  /** `n.toString()` for a non-negative BigInt `n`. */
  function DecimalString(n: nat): (s: string)
    ensures Canonical(s)
    ensures DigitsValue(s) == n
    decreases n
  {
    if n < 10 then [DigitChar(n)]
    else
      var prefix := DecimalString(n / 10);
      var s := prefix + [DigitChar(n % 10)];
      assert s[..|s| - 1] == prefix;
      s
  }

  /** `n.toString()` for any BigInt `n`: a minus sign before the digits of a negative one. */
  function SignedDecimalString(n: int): (s: string)
    ensures |s| > 0
    ensures n < 0 <==> s[0] == '-'
  {
    if n < 0 then "-" + DecimalString(-n) else DecimalString(n)
  }

  /** The value of a non-empty string of decimal digits, and nothing for any other string. */
  function ParseDecimal(s: string): (r: Option<nat>)
    ensures r.Some? <==> |s| > 0 && AllDigits(s)
    ensures r.Some? ==> r.value == DigitsValue(s)
  {
    if |s| > 0 && AllDigits(s) then Some(DigitsValue(s)) else None
  }

  /** The value of a digit string with an optional leading minus sign, and nothing for any other string. */
  function ParseSignedDecimal(s: string): (r: Option<int>)
    ensures |s| > 0 && s[0] == '-' ==>
      (r.Some? <==> ParseDecimal(s[1..]).Some?) && (r.Some? ==> r.value == -(ParseDecimal(s[1..]).value as int))
    ensures (|s| == 0 || s[0] != '-') ==>
      (r.Some? <==> ParseDecimal(s).Some?) && (r.Some? ==> r.value == ParseDecimal(s).value)
  {
    if |s| > 0 && s[0] == '-' then
      match ParseDecimal(s[1..])
      case None => None
      case Some(v) => Some(-(v as int))
    else
      match ParseDecimal(s)
      case None => None
      case Some(v) => Some(v)
  }

  /** Every BigInt, negative ones included, reads back from its `toString()` spelling. */
  lemma SignedRoundTrip(n: int)
    ensures ParseSignedDecimal(SignedDecimalString(n)) == Some(n)
  {
  }

  lemma {:induction false} LeadingDigitPositive(s: string)
    requires |s| > 0 && AllDigits(s) && s[0] != '0'
    ensures DigitsValue(s) >= 1
    decreases |s|
  {
    if |s| > 1 {
      LeadingDigitPositive(s[..|s| - 1]);
    }
  }

  /** Reading a canonical string back and printing it gives the same string. */
  lemma {:induction false} PrintParsed(s: string)
    requires Canonical(s)
    ensures DecimalString(DigitsValue(s)) == s
    decreases |s|
  {
    if |s| > 1 {
      var prefix := s[..|s| - 1];
      assert Canonical(prefix);
      LeadingDigitPositive(prefix);
      PrintParsed(prefix);
      assert s == prefix + [s[|s| - 1]];
    }
  }

  /**
   * A BigInt prints as a given string exactly when that string is canonical and
   * denotes it: the comparison `balance.toString() === amount` is integer equality
   * only for amounts spelled canonically.
   */
  lemma PrintsAs(n: nat, s: string)
    ensures DecimalString(n) == s <==> Canonical(s) && DigitsValue(s) == n
  {
    if Canonical(s) && DigitsValue(s) == n {
      PrintParsed(s);
    }
  }
}
