/** The letters and digits of ASCII, written out. */
module Ascii {
  const UPPER := "ABCDEFGHIJKLMNOPQRSTUVWXYZ"
  const LOWER := "abcdefghijklmnopqrstuvwxyz"
  const DIGITS := "0123456789"

  lemma UpperAt(i: nat)
    requires i < 26
    ensures |UPPER| == 26 && UPPER[i] == ('A' as int + i) as char
  {
  }

  lemma LowerAt(i: nat)
    requires i < 26
    ensures |LOWER| == 26 && LOWER[i] == ('a' as int + i) as char
  {
  }

  lemma DigitAt(i: nat)
    requires i < 10
    ensures |DIGITS| == 10 && DIGITS[i] == ('0' as int + i) as char
  {
  }

  lemma UpperIs(c: char)
    ensures c in UPPER <==> 'A' <= c <= 'Z'
  {
    forall i | 0 <= i < |UPPER|
      ensures 'A' <= UPPER[i] <= 'Z'
    {
      UpperAt(i);
    }
    if 'A' <= c <= 'Z' {
      UpperAt(c as int - 'A' as int);
    }
  }

  lemma LowerIs(c: char)
    ensures c in LOWER <==> 'a' <= c <= 'z'
  {
    forall i | 0 <= i < |LOWER|
      ensures 'a' <= LOWER[i] <= 'z'
    {
      LowerAt(i);
    }
    if 'a' <= c <= 'z' {
      LowerAt(c as int - 'a' as int);
    }
  }

  lemma DigitIs(c: char)
    ensures c in DIGITS <==> '0' <= c <= '9'
  {
    forall i | 0 <= i < |DIGITS|
      ensures '0' <= DIGITS[i] <= '9'
    {
      DigitAt(i);
    }
    if '0' <= c <= '9' {
      DigitAt(c as int - '0' as int);
    }
  }

  // ----- hexadecimal digits

  const HEX_LOWER := "0123456789abcdef"
  const HEX_UPPER := "0123456789ABCDEF"

  /** The code b is a hexadecimal digit, of either case, with the value v. */
  ghost predicate HexIs(b: int, v: int)
  {
    0 <= v < 16 && (b == HEX_LOWER[v] as int || b == HEX_UPPER[v] as int)
  }

  lemma HexAt(v: nat)
    requires v < 16
    ensures HEX_LOWER[v] as int == if v < 10 then 48 + v else 87 + v
    ensures HEX_UPPER[v] as int == if v < 10 then 48 + v else 55 + v
  {
  }

  lemma HexRange(b: int, v: int)
    ensures HexIs(b, v) <==> (48 <= b <= 57 && v == b - 48) || (97 <= b <= 102 && v == b - 87) || (65 <= b <= 70 && v == b - 55)
  {
    if 0 <= v < 16 {
      HexAt(v);
    }
  }
}
