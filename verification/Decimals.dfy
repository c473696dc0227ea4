/** Decimal numbers without leading zeros, as the streams write them. */
module Decimals {
  predicate IsDigit(ch: char) { '0' <= ch <= '9' }

  predicate AllDigits(s: string) {
    forall k | 0 <= k < |s| :: IsDigit(s[k])
  }

  function DigitValue(ch: char): (v: nat)
    requires IsDigit(ch)
    ensures v < 10
  {
    ch as int - '0' as int
  }

  function Digit(v: nat): (ch: char)
    requires v < 10
    ensures IsDigit(ch) && DigitValue(ch) == v
  {
    '0' + v as char
  }

  function Digits(value: nat): (digits: string)
    ensures digits != "" && AllDigits(digits)
  {
    (if value < 10 then "" else Digits(value / 10)) + [Digit(value % 10)]
  }

  function Value(digits: string): nat
    requires AllDigits(digits)
  {
    if digits == "" then 0
    else Value(digits[..|digits| - 1]) * 10 + DigitValue(digits[|digits| - 1])
  }

  lemma {:induction false} IsReadBack(value: nat)
    ensures Value(Digits(value)) == value
  {
    hide IsDigit, Digit, DigitValue;
    var digits := Digits(value);
    if value < 10 {
      assert digits[..0] == "";
    } else {
      IsReadBack(value / 10);
      assert digits[..|digits| - 1] == Digits(value / 10);
    }
  }
}
