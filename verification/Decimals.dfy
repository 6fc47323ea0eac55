/**
 Byte strings, and natural numbers written in decimal digits.
 */
module Decimals {
  /** The characters stand for bytes. */
  type Bytes = string

  predicate Digit(c: char) {
    '0' <= c <= '9'
  }

  function Value(c: char): nat
    requires Digit(c)
  {
    c as int - '0' as int
  }

  /** The decimal digits of a number. */
  function Decimal(n: nat): (r: Bytes)
    ensures |r| > 0 && forall i :: 0 <= i < |r| ==> Digit(r[i])
  {
    var d := [(n % 10 + '0' as int) as char];
    if n < 10 then d else Decimal(n / 10) + d
  }
}
