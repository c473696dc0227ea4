/** Hexadecimal numbers without leading zeros, as the streams write them. */
module Hexadecimal {
  predicate IsHexDigit(ch: char) { '0' <= ch <= '9' || 'A' <= ch <= 'F' || 'a' <= ch <= 'f' }

  function DigitValue(ch: char): (v: nat)
    requires IsHexDigit(ch)
    ensures v < 16
  {
    if ch <= '9' then ch as int - '0' as int
    else if ch <= 'F' then ch as int - 'A' as int + 10
    else ch as int - 'a' as int + 10
  }

  function UpperDigit(v: nat): (ch: char)
    requires v < 16
    ensures IsHexDigit(ch) && DigitValue(ch) == v
  {
    if v < 10 then '0' + v as char else 'A' + (v - 10) as char
  }

  function HexDigits(value: nat): (digits: string)
    ensures digits != ""
    ensures forall k | 0 <= k < |digits| :: IsHexDigit(digits[k])
  {
    (if value < 16 then "" else HexDigits(value / 16)) + [UpperDigit(value % 16)]
  }

  ghost function HexValue(digits: string): nat
    requires forall k | 0 <= k < |digits| :: IsHexDigit(digits[k])
  {
    if digits == "" then 0
    else HexValue(digits[..|digits| - 1]) * 16 + DigitValue(digits[|digits| - 1])
  }

  lemma {:induction false} HexIsReadBack(value: nat)
    ensures HexValue(HexDigits(value)) == value
  {
    var digits := HexDigits(value);
    if value < 16 {
      assert digits[..0] == "";
    } else {
      HexIsReadBack(value / 16);
      assert digits[..|digits| - 1] == HexDigits(value / 16);
    }
  }
}
