/** Decimal printing (`to_string`, f-strings) and the integer parser of Rust (`str::parse`). */
module Decimal {
  import opened Options

  predicate IsDigit(c: char) {
    '0' <= c <= '9'
  }

  function DigitChar(d: nat): (c: char)
    requires d < 10
    ensures IsDigit(c) && DigitValue(c) == d
  {
    '0' + d as char
  }

  function DigitValue(c: char): (d: nat)
    requires IsDigit(c)
    ensures d < 10
  {
    (c - '0') as nat
  }

  /** The ten digits in their order. */
  lemma DigitsInOrder(d: nat)
    requires d < 10
    ensures DigitChar(d) == "0123456789"[d] && DigitValue("0123456789"[d]) == d
  {
  }

  function NatToString(n: nat): (s: string)
    ensures s != [] && forall c :: c in s ==> IsDigit(c)
  {
    if n < 10 then [DigitChar(n)] else NatToString(n / 10) + [DigitChar(n % 10)]
  }

  function IntToString(n: int): (s: string)
    ensures s != [] && (s[0] == '-' <==> n < 0)
    ensures forall c :: c in s ==> IsDigit(c) || c == '-'
  {
    var digits := NatToString(if n < 0 then -n else n);
    assert IsDigit(digits[0]);
    if n < 0 then "-" + digits else digits
  }

  /** The number a string of digits stands for. */
  function DigitsValue(s: string): nat
    requires forall c :: c in s ==> IsDigit(c)
  {
    if s == [] then 0 else DigitsValue(s[..|s| - 1]) * 10 + DigitValue(s[|s| - 1])
  }

  predicate AllDigits(s: string) {
    forall c :: c in s ==> IsDigit(c)
  }

  const I16_MIN := -0x8000
  const I16_MAX := 0x7FFF

  /** `str::parse::<i16>`: an optional sign, at least one digit, and a value in range. */
  function ParseI16(s: string): Option<int> {
    var negative := s != [] && s[0] == '-';
    var digits := if s != [] && (s[0] == '-' || s[0] == '+') then s[1..] else s;
    if digits == [] || !AllDigits(digits) then None
    else
      var magnitude: int := DigitsValue(digits);
      var n := if negative then -magnitude else magnitude;
      if I16_MIN <= n <= I16_MAX then Some(n) else None
  }

  /** A plus sign before digits changes nothing, and a minus sign is that of the number. */
  lemma SignedText(digits: string)
    requires digits != [] && AllDigits(digits)
    ensures ParseI16("+" + digits) == ParseI16(digits)
    ensures DigitsValue(digits) <= I16_MAX ==>
              ParseI16(digits) == Some(DigitsValue(digits)) && ParseI16("-" + digits) == Some(0 - DigitsValue(digits))
    ensures DigitsValue(digits) > 0x8000 ==> ParseI16(digits).None? && ParseI16("-" + digits).None?
  {
    assert IsDigit(digits[0]);
    assert ("+" + digits)[1..] == digits && ("-" + digits)[1..] == digits;
  }

  lemma {:induction false} NatRoundTrip(n: nat)
    ensures DigitsValue(NatToString(n)) == n
  {
    if n >= 10 {
      var s := NatToString(n);
      assert s[..|s| - 1] == NatToString(n / 10);
      NatRoundTrip(n / 10);
    }
  }

  lemma PrintedNat(n: nat)
    ensures ParseI16(NatToString(n)) == if n <= I16_MAX then Some(n) else None
  {
    NatRoundTrip(n);
    assert IsDigit(NatToString(n)[0]);
  }

  /** Every 16-bit number is read back from its own decimal text. */
  lemma I16RoundTrip(n: int)
    requires I16_MIN <= n <= I16_MAX
    ensures ParseI16(IntToString(n)) == Some(n)
  {
    NatRoundTrip(if n < 0 then -n else n);
    var s := IntToString(n);
    var digits := NatToString(if n < 0 then -n else n);
    assert IsDigit(digits[0]);
    assert n < 0 ==> s[1..] == digits;
  }

  lemma IntToStringInjective(a: int, b: int)
    requires IntToString(a) == IntToString(b)
    ensures a == b
  {
    NatRoundTrip(if a < 0 then -a else a);
    NatRoundTrip(if b < 0 then -b else b);
    assert a < 0 <==> b < 0;
    if a < 0 {
      assert IntToString(a)[1..] == NatToString(-a) && IntToString(b)[1..] == NatToString(-b);
    }
  }
}
