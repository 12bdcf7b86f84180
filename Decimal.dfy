/**
 * Decimal integers as text: `format!("{}", n)` for an unsigned value and
 * Rust's `FromStr` for `u64` and `i32`.
 */
module Decimal {
  import opened Wrappers

  /** 2^64: every `u64` is below it. */
  const U64Limit: int := 0x1_0000_0000_0000_0000
  /** 2^31: every `i32` lies in [-I32Bound, I32Bound). */
  const I32Bound: int := 0x8000_0000

  type U64 = x: int | 0 <= x < U64Limit

  predicate IsDigit(c: char) {
    '0' <= c <= '9'
  }

  predicate AllDigits(s: string) {
    forall i :: 0 <= i < |s| ==> IsDigit(s[i])
  }

  function DigitValue(c: char): (d: nat)
    requires IsDigit(c)
    ensures d < 10
  {
    (c as int) - ('0' as int)
  }

  function DigitChar(d: nat): (c: char)
    requires d < 10
    ensures IsDigit(c) && DigitValue(c) == d
  {
    (('0' as int) + d) as char
  }

  /** The value of a run of decimal digits, most significant first. */
  function DigitsValue(s: string): nat
    requires AllDigits(s)
    decreases |s|
  {
    if s == [] then 0 else 10 * DigitsValue(s[..|s| - 1]) + DigitValue(s[|s| - 1])
  }

  /** `format!("{}", n)`: the decimal digits of `n`, with no leading zero. */
  function Format(n: nat): (s: string)
    ensures s != [] && AllDigits(s)
    ensures |s| > 1 ==> s[0] != '0'
    decreases n
  {
    if n < 10 then [DigitChar(n)] else Format(n / 10) + [DigitChar(n % 10)]
  }

  /** Reading back the digits that `Format` writes gives the number again. */
  lemma {:induction false} FormatRoundTrip(n: nat)
    ensures DigitsValue(Format(n)) == n
  {
    if n >= 10 {
      var s := Format(n);
      assert s[..|s| - 1] == Format(n / 10);
      FormatRoundTrip(n / 10);
    }
  }

  /**
   * `u64::from_str`: an optional `+` followed by one or more ASCII digits
   * whose value fits in 64 bits; anything else is an error (`None`).
   */
  function ParseU64(s: string): (r: Option<U64>)
    ensures r.Some? ==> s != [] && (IsDigit(s[0]) || s[0] == '+')
  {
    var digits := if s != [] && s[0] == '+' then s[1..] else s;
    if digits != [] && AllDigits(digits) && DigitsValue(digits) < U64Limit then
      Some(DigitsValue(digits))
    else
      None
  }

  /** Every `u64` printed in decimal parses back to itself. */
  lemma ParseFormatU64(n: U64)
    ensures ParseU64(Format(n)) == Some(n)
  {
    FormatRoundTrip(n);
  }

  /**
   * `i32::from_str`: an optional `+` or `-` followed by one or more ASCII
   * digits whose signed value fits in 32 bits.
   */
  function ParseI32(s: string): (r: Option<int>)
    ensures r.Some? ==> -I32Bound <= r.value < I32Bound
  {
    if s != [] && s[0] == '-' then
      var digits := s[1..];
      if digits != [] && AllDigits(digits) && DigitsValue(digits) <= I32Bound then
        var v: int := 0 - DigitsValue(digits) as int;
        Some(v)
      else
        None
    else
      var digits := if s != [] && s[0] == '+' then s[1..] else s;
      if digits != [] && AllDigits(digits) && DigitsValue(digits) < I32Bound then
        Some(DigitsValue(digits))
      else
        None
  }

  /** Every non-negative `i32` printed in decimal parses back to itself. */
  lemma ParseFormatI32(n: nat)
    requires n < I32Bound
    ensures ParseI32(Format(n)) == Some(n)
  {
    FormatRoundTrip(n);
  }
}
