/** Decimal digits and numbers as text. */
module Decimals {
  predicate IsDigit(c: char)
  {
    '0' <= c <= '9'
  }

  function Digits(n: nat): (r: string)
    ensures |r| > 0 && forall i :: 0 <= i < |r| ==> IsDigit(r[i])
  {
    var d := [('0' as int + n % 10) as char];
    if n < 10 then d else Digits(n / 10) + d
  }
}
