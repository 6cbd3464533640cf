/**
 * Java's 64-bit `long`: its range, the wrap-around of its arithmetic, and
 * `Long.parseLong(String)` in radix 10.
 */
module JavaLong {
  import opened Wrappers

  const MinLong: int := -0x8000_0000_0000_0000
  const MaxLong: int := 0x7FFF_FFFF_FFFF_FFFF
  const LongModulus: int := 0x1_0000_0000_0000_0000

  /** The values of a Java `long`. */
  type Int64 = x: int | MinLong <= x <= MaxLong

  /** The `long` that two's-complement arithmetic yields for the mathematical result `x`. */
  function Wrap64(x: int): (r: Int64)
    ensures (x - r) % LongModulus == 0
    ensures MinLong <= x <= MaxLong ==> r == x
  {
    (x - MinLong) % LongModulus + MinLong
  }

  predicate IsDigit(c: char) {
    '0' <= c <= '9'
  }

  predicate AllDigits(s: string) {
    forall k :: 0 <= k < |s| ==> IsDigit(s[k])
  }

  function DigitValue(c: char): nat
    requires IsDigit(c)
  {
    c as int - '0' as int
  }

  /** The number a string of decimal digits denotes (most significant digit first). */
  function DigitsValue(s: string): nat
    requires AllDigits(s)
  {
    if s == [] then 0 else DigitsValue(s[..|s| - 1]) * 10 + DigitValue(s[|s| - 1])
  }

  /**
   * `Long.parseLong(s)`: an optional leading `+` or `-`, then at least one
   * decimal digit, and the value must fit in a `long`; anything else throws
   * NumberFormatException, modelled as `None`.
   */
  function ParseLong(s: string): (r: Option<Int64>)
    ensures r.Some? ==> s != [] && (s[0] == '+' || s[0] == '-' || IsDigit(s[0]))
    ensures r.Some? ==> forall k :: 1 <= k < |s| ==> IsDigit(s[k])
    ensures r.Some? && s[0] != '-' ==> r.value >= 0
  {
    if s == [] then None
    else
      var signed := s[0] == '-' || s[0] == '+';
      var digits := if signed then s[1..] else s;
      if digits == [] || !AllDigits(digits) then None
      else
        var magnitude: int := DigitsValue(digits);
        var v: int := if s[0] == '-' then -magnitude else magnitude;
        if MinLong <= v <= MaxLong then Some(v) else None
  }

  function DigitChar(d: nat): (c: char)
    requires d < 10
  {
    ('0' as int + d) as char
  }

  /** `Long.toString(n)` for a non-negative `n`: its shortest decimal representation. */
  function DecimalString(n: nat): (s: string)
    ensures s != [] && AllDigits(s)
  {
    if n < 10 then [DigitChar(n)] else DecimalString(n / 10) + [DigitChar(n % 10)]
  }

  /** The digits `DecimalString` writes denote the number written. */
  lemma {:induction false} DecimalStringValue(n: nat)
    ensures DigitsValue(DecimalString(n)) == n
  {
    if n >= 10 {
      var s := DecimalString(n);
      DecimalStringValue(n / 10);
      assert s[..|s| - 1] == DecimalString(n / 10);
    }
  }

  /**
   * Parsing undoes formatting: a decimal string is accepted exactly when its
   * value fits in a `long`, and then yields that value.
   */
  lemma ParseDecimalString(n: nat)
    ensures ParseLong(DecimalString(n)) == if n <= MaxLong then Some(n) else None
  {
    DecimalStringValue(n);
  }

  /** A leading `+` is accepted and changes nothing. */
  lemma ParsePlusDecimalString(n: nat)
    ensures ParseLong("+" + DecimalString(n)) == if n <= MaxLong then Some(n) else None
  {
    DecimalStringValue(n);
    assert ("+" + DecimalString(n))[1..] == DecimalString(n);
  }

  /** A leading `-` negates, and the range reaches one further than on the positive side. */
  lemma ParseMinusDecimalString(n: nat)
    ensures n <= -MinLong ==> ParseLong("-" + DecimalString(n)) == Some(0 - n)
    ensures n > -MinLong ==> ParseLong("-" + DecimalString(n)) == None
  {
    DecimalStringValue(n);
    assert ("-" + DecimalString(n))[1..] == DecimalString(n);
  }

  /** The empty string and a lone sign are rejected. */
  lemma ParseLongRejectsNoDigits()
    ensures ParseLong("") == None
    ensures ParseLong("+") == None
    ensures ParseLong("-") == None
  {
  }
}
