/** Digit characters shared by the decimal and hexadecimal encodings. */
module Chars {

  predicate IsDecimalDigit(c: char) {
    '0' <= c <= '9'
  }

  predicate IsLowerHexDigit(c: char) {
    IsDecimalDigit(c) || 'a' <= c <= 'f'
  }

  /** The character Java's `Integer.toString(_, radix)` writes for one digit
      (radix at most 16): `0`..`9`, then lowercase `a`..`f`. */
  function DigitChar(d: int): (c: char)
    requires 0 <= d < 16
    ensures IsLowerHexDigit(c)
    ensures IsDecimalDigit(c) <==> d < 10
  {
    if d < 10 then (48 + d) as char else (87 + d) as char
  }

  /** The value of a lowercase hexadecimal digit; inverse of `DigitChar`. */
  function DigitValue(c: char): (d: int)
    requires IsLowerHexDigit(c)
    ensures 0 <= d < 16
    ensures DigitChar(d) == c
    ensures IsDecimalDigit(c) <==> d < 10
  {
    if IsDecimalDigit(c) then c as int - 48 else c as int - 87
  }

  lemma DigitValueOfDigitChar(d: int)
    requires 0 <= d < 16
    ensures DigitValue(DigitChar(d)) == d
  {
  }
}
