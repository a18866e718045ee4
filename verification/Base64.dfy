/** Base64 (misc/base64.c) and its URL form (misc/jwt.c): sections 4 and 5 of RFC 4648, appendix C
    of RFC 7515. */
module Base64 {
  import opened Arith
  import opened Ascii
  import opened Common
  import opened Sequences

  type six = x: int | 0 <= x < 64

  // ----- the alphabet

  function Basis(v: six): char
  {
    if v < 26 then ('A' as int + v) as char
    else if v < 52 then ('a' as int + v - 26) as char
    else if v < 62 then ('0' as int + v - 52) as char
    else if v == 62 then '+' else '/'
  }

  /** The value of a character, or 64 for a character outside the alphabet. */
  function Value(c: char): (v: nat)
    ensures v <= 64
  {
    if 'A' <= c <= 'Z' then c as int - 'A' as int
    else if 'a' <= c <= 'z' then c as int - 'a' as int + 26
    else if '0' <= c <= '9' then c as int - '0' as int + 52
    else if c == '+' then 62
    else if c == '/' then 63
    else 64
  }

  // ----- encoding

  const PAD := '='

  function Group(a: byte, b: byte, c: byte): string
  {
    [Basis(a / 4), Basis(a % 4 * 16 + b / 16), Basis(b % 16 * 4 + c / 64), Basis(c % 64)]
  }

  /** The last one or two bytes, padded. */
  function Tail(s: seq<byte>): string
  {
    if |s| == 0 then ""
    else if |s| == 1 then [Basis(s[0] / 4), Basis(s[0] % 4 * 16), PAD, PAD]
    else [Basis(s[0] / 4), Basis(s[0] % 4 * 16 + s[1] / 16), Basis(s[1] % 16 * 4), PAD]
  }

  /** The encoding of a byte string without line breaks. */
  function Encoded(s: seq<byte>): string
  {
    if |s| < 3 then Tail(s) else Group(s[0], s[1], s[2]) + Encoded(s[3..])
  }

  /** With a line break after each group that ends at a multiple of wrap, pc characters being written. */
  function Wrapped(s: seq<byte>, wrap: int, pc: nat): string
  {
    if |s| < 3 then Tail(s)
    else Group(s[0], s[1], s[2]) + (if Breaks(wrap, pc + 4) then "\r\n" else "") + Wrapped(s[3..], wrap, pc + 4)
  }

  predicate Breaks(wrap: int, pc: nat)
  {
    wrap > 0 && pc % wrap == 0
  }

  lemma {:induction false} Unwrapped(s: seq<byte>, wrap: int, pc: nat)
    requires wrap <= 0
    ensures Wrapped(s, wrap, pc) == Encoded(s)
    decreases |s|
  {
    if |s| >= 3 {
      Unwrapped(s[3..], wrap, pc + 4);
    }
  }

  lemma WrapStep(s: seq<byte>, i: nat, wrap: int, pc: nat, out: string)
    requires i + 2 < |s|
    ensures var lb := if Breaks(wrap, pc + 4) then "\r\n" else "";
            out + Wrapped(s[i..], wrap, pc) == (out + Group(s[i], s[i + 1], s[i + 2]) + lb) + Wrapped(s[i + 3..], wrap, pc + 4)
  {
    hide Group;
    assert s[i..][0] == s[i] && s[i..][1] == s[i + 1] && s[i..][2] == s[i + 2] && s[i..][3..] == s[i + 3..];
    var g, lb, rest := Group(s[i], s[i + 1], s[i + 2]), if Breaks(wrap, pc + 4) then "\r\n" else "", Wrapped(s[i + 3..], wrap, pc + 4);
    Assoc4(out, g, lb, rest);
  }

  /** The four characters of a whole group. */
  method PutGroup(out0: string, a: byte, b: byte, c: byte) returns (out: string)
    ensures out == out0 + Group(a, b, c)
  {
    hide Basis;
    out := out0 + [Basis(a / 4)];
    out := out + [Basis(a % 4 * 16 + b / 16)];
    out := out + [Basis(b % 16 * 4 + c / 64)];
    out := out + [Basis(c % 64)];
  }

  /** The last characters, when bytes are left over. */
  method PutTail(out0: string, s: seq<byte>, i: nat) returns (out: string)
    requires i <= |s| < i + 3
    ensures out == out0 + Tail(s[i..])
  {
    hide Basis;
    out := out0;
    if i < |s| {
      out := out + [Basis(s[i] / 4)];
      if i == |s| - 1 {
        out := out + [Basis(s[i] % 4 * 16)];
        out := out + [PAD];
      } else {
        out := out + [Basis(s[i] % 4 * 16 + s[i + 1] / 16)];
        out := out + [Basis(s[i + 1] % 16 * 4)];
      }
      out := out + [PAD];
    }
  }

  /** __base64_encode_internal. */
  method Encode(s: seq<byte>, wrap: int) returns (out: string)
    ensures out == Wrapped(s, wrap, 0)
  {
    hide Group, Tail;
    out := "";
    var i, pc := 0, 0;
    assert s[0..] == s && "" + Wrapped(s, wrap, 0) == Wrapped(s, wrap, 0);
    while i < |s| - 2
      invariant 0 <= i <= |s| && pc >= 0 && Wrapped(s, wrap, 0) == out + Wrapped(s[i..], wrap, pc)
    {
      hide Wrapped;
      WrapStep(s, i, wrap, pc, out);
      out := PutGroup(out, s[i], s[i + 1], s[i + 2]);
      pc := pc + 4;
      assert out + "" == out;
      if wrap > 0 {
        if pc % wrap == 0 {
          out := out + "\r\n";
        }
      }
      i := i + 3;
    }
    assert Wrapped(s[i..], wrap, pc) == Tail(s[i..]);
    out := PutTail(out, s, i);
  }

  // ----- against section 4 of RFC 4648

  /** The alphabet of table 1. */
  const ALPHABET := UPPER + LOWER + DIGITS + "+/"

  lemma AlphabetAt(v: six)
    ensures |ALPHABET| == 64 && Basis(v) == ALPHABET[v]
  {
    if v < 26 {
      UpperAt(v);
    } else if v < 52 {
      LowerAt(v - 26);
    } else if v < 62 {
      DigitAt(v - 52);
    }
    AlphabetParts(v);
  }

  lemma AlphabetParts(v: six)
    ensures |ALPHABET| == 64
    ensures ALPHABET[v] == if v < 26 then UPPER[v] else if v < 52 then LOWER[v - 26] else if v < 62 then DIGITS[v - 52] else "+/"[v - 62]
  {
    assert |UPPER| == 26 && |LOWER| == 26 && |DIGITS| == 10;
  }

  /** A character is decoded as its place in the alphabet, and no other character is decoded. */
  lemma ValueIs(c: char)
    ensures if Value(c) < 64 then |ALPHABET| == 64 && ALPHABET[Value(c)] == c else c !in ALPHABET
  {
    hide Basis;
    if Value(c) < 64 {
      AlphabetAt(Value(c));
      BasisValue(c);
    } else {
      forall v | 0 <= v < |ALPHABET|
        ensures ALPHABET[v] != c
      {
        AlphabetParts(0);
        AlphabetAt(v);
        BasisPlain(v);
      }
    }
  }

  lemma BasisValue(c: char)
    requires Value(c) < 64
    ensures Basis(Value(c)) == c
  {
  }

  /** The places of four characters as one number of 24 bits. */
  ghost function Bits24(v0: six, v1: six, v2: six, v3: six): int
  {
    ((v0 as int * 64 + v1) * 64 + v2) * 64 + v3
  }

  /** Three bytes are one number of 24 bits, written in four characters of six bits each. */
  lemma GroupBits(a: byte, b: byte, c: byte)
    ensures exists v0: six, v1: six, v2: six, v3: six ::
              && |ALPHABET| == 64 && Group(a, b, c) == [ALPHABET[v0], ALPHABET[v1], ALPHABET[v2], ALPHABET[v3]]
              && Bits24(v0, v1, v2, v3) == (a as int * 256 + b) * 256 + c
  {
    hide Basis;
    var v0: six, v1: six, v2: six, v3: six := a / 4, a % 4 * 16 + b / 16, b % 16 * 4 + c / 64, c % 64;
    AlphabetAt(v0);
    AlphabetAt(v1);
    AlphabetAt(v2);
    AlphabetAt(v3);
    assert Bits24(v0, v1, v2, v3) == (a as int * 256 + b) * 256 + c;
  }

  /** Two bytes are written as if a zero byte followed, with the last character a pad; one byte as if
      two zero bytes followed, with two pads. */
  lemma TailBits(a: byte, b: byte)
    ensures Tail([a, b]) == Group(a, b, 0)[..3] + "=" && Tail([a]) == Group(a, 0, 0)[..2] + "=="
  {
    hide Basis;
  }

  // ----- the length functions

  /** __base64_encode_intenal_len. */
  function EncodedLength(n: nat, wrap: int): int
  {
    var inline := (n + 2) / 3 * 4 + 1;
    if wrap <= 0 then inline
    else
      var nl := inline / wrap * 2;
      inline + if nl > 1 && inline % wrap == 0 then nl - 2 else nl
  }

  /** How many of the first k groups are followed by a line break. */
  ghost function BreakCount(wrap: int, k: nat): nat
  {
    if k == 0 then 0 else BreakCount(wrap, k - 1) + if Breaks(wrap, 4 * k) then 1 else 0
  }

  /** A break needs a multiple of wrap among the characters written. */
  lemma {:induction false} BreakBound(wrap: int, k: nat)
    requires wrap > 0
    ensures BreakCount(wrap, k) <= 4 * k / wrap
  {
    if k > 0 {
      BreakBound(wrap, k - 1);
      QuotientsGrow(4 * (k - 1), 4 * k, wrap);
    }
  }

  lemma QuotientsGrow(a: int, b: int, d: int)
    requires d > 0 && a < b
    ensures a / d <= b / d && (b % d == 0 ==> a / d < b / d)
  {
    Divides(a, d);
    Divides(b, d);
    if a / d > b / d {
      TimesLess(b / d + 1, a / d, d);
    } else if a / d == b / d && b % d == 0 {
    }
  }

  lemma {:induction false} WrappedLength(s: seq<byte>, wrap: int, k: nat)
    ensures |Wrapped(s, wrap, 4 * k)| == (|s| + 2) / 3 * 4 + 2 * (BreakCount(wrap, k + |s| / 3) - BreakCount(wrap, k))
    decreases |s|
  {
    hide Group, Tail, Breaks;
    if |s| >= 3 {
      WrappedLength(s[3..], wrap, k + 1);
      GroupLength(s[0], s[1], s[2]);
      assert 4 * k + 4 == 4 * (k + 1) && |s[3..]| / 3 == |s| / 3 - 1 && (|s[3..]| + 2) / 3 == (|s| + 2) / 3 - 1;
      BreakNext(wrap, k);
    } else {
      TailLength(s);
    }
  }

  lemma BreakNext(wrap: int, k: nat)
    ensures BreakCount(wrap, k + 1) == BreakCount(wrap, k) + if Breaks(wrap, 4 * (k + 1)) then 1 else 0
  {
  }

  lemma GroupLength(a: byte, b: byte, c: byte)
    ensures |Group(a, b, c)| == 4
  {
  }

  lemma TailLength(s: seq<byte>)
    requires |s| < 3
    ensures |Tail(s)| == (|s| + 2) / 3 * 4
  {
  }

  /** For every byte string and wrap, the encoding and its terminator fit the computed length. */
  lemma EncodingFits(s: seq<byte>, wrap: int)
    ensures |Wrapped(s, wrap, 0)| + 1 <= EncodedLength(|s|, wrap)
  {
    hide Wrapped;
    WrappedLength(s, wrap, 0);
    var n, g := (|s| + 2) / 3 * 4, |s| / 3;
    if wrap > 0 {
      BreakBound(wrap, g);
      if 4 * g < n + 1 {
        QuotientsGrow(4 * g, n + 1, wrap);
      }
    } else {
      NoBreaks(wrap, g);
    }
  }

  lemma {:induction false} NoBreaks(wrap: int, k: nat)
    requires wrap <= 0
    ensures BreakCount(wrap, k) == 0
  {
    if k > 0 {
      NoBreaks(wrap, k - 1);
    }
  }

  // ----- decoding

  /** Bitwise or. */
  function Or(a: nat, b: nat): nat
  {
    if a == 0 && b == 0 then 0
    else 2 * Or(a / 2, b / 2) + if a % 2 == 1 || b % 2 == 1 then 1 else 0
  }

  ghost function Power2(k: nat): (r: nat)
    ensures r > 0
  {
    if k == 0 then 1 else 2 * Power2(k - 1)
  }

  lemma {:induction false} OrZero(a: nat)
    ensures Or(a, 0) == a
  {
    if a > 0 {
      OrZero(a / 2);
    }
  }

  /** Below the lowest bit of the other operand, or is a sum. */
  lemma {:induction false} OrAdds(x: nat, k: nat, y: nat)
    requires y < Power2(k)
    ensures Or(x * Power2(k), y) == x * Power2(k) + y
    decreases k
  {
    if k == 0 {
      OrZero(x);
    } else {
      var a := x * Power2(k - 1);
      assert x * Power2(k) == 2 * a;
      assert y / 2 < Power2(k - 1);
      OrAdds(x, k - 1, y / 2);
      OrUnfold(2 * a, y);
    }
  }

  lemma OrUnfold(a: nat, b: nat)
    ensures Or(a, b) == 2 * Or(a / 2, b / 2) + if a % 2 == 1 || b % 2 == 1 then 1 else 0
  {
  }

  lemma OrShifted(x: nat, y: nat)
    ensures y < 4 ==> Or(x * 4, y) == x * 4 + y
    ensures y < 16 ==> Or(x * 16, y) == x * 16 + y
    ensures y < 64 ==> Or(x * 64, y) == x * 64 + y
  {
    assert Power2(1) == 2 && Power2(2) == 4 && Power2(3) == 8;
    assert Power2(4) == 2 * Power2(3) && Power2(6) == 2 * (2 * Power2(4));
    if y < 4 {
      OrAdds(x, 2, y);
    }
    if y < 16 {
      OrAdds(x, 4, y);
    }
    if y < 64 {
      OrAdds(x, 6, y);
    }
  }

  function First(v0: nat, v1: nat): byte
  {
    Or(v0 * 4, v1 / 16) % 256
  }

  function Second(v1: nat, v2: nat): byte
  {
    Or(v1 * 16, v2 / 4) % 256
  }

  function Third(v2: nat, v3: nat): byte
  {
    Or(v2 * 64, v3) % 256
  }

  /** Reading behind the text finds its terminator. */
  function At(text: string, i: nat): char
  {
    if i < |text| then text[i] else '\0'
  }

  predicate IsBreak(c: char)
  {
    c == '\r' || c == '\n'
  }

  /** The number of characters of the alphabet up to the first other one, line breaks skipped. */
  function CodeLength(text: string, i: nat): nat
    decreases |text| - i
  {
    if i >= |text| then 0
    else if IsBreak(text[i]) then CodeLength(text, i + 1)
    else if Value(text[i]) > 63 then 0
    else 1 + CodeLength(text, i + 1)
  }

  /** The bytes of n characters from i on. */
  function Decoded(text: string, i: nat, n: nat): seq<byte>
    decreases n, if i < |text| then |text| - i else 0
  {
    var v0, v1, v2, v3 := Value(At(text, i)), Value(At(text, i + 1)), Value(At(text, i + 2)), Value(At(text, i + 3));
    if n > 4 then
      if IsBreak(At(text, i)) then Decoded(text, i + 1, n)
      else [First(v0, v1), Second(v1, v2), Third(v2, v3)] + Decoded(text, i + 4, n - 4)
    else
      (if n > 1 then [First(v0, v1)] else []) + (if n > 2 then [Second(v1, v2)] else []) + (if n > 3 then [Third(v2, v3)] else [])
  }

  /** The length base64_decode returns for n characters. */
  function DecodedLength(n: nat): int
  {
    (n + 3) / 4 * 3 - (4 - (if n > 4 then (n - 1) % 4 + 1 else n)) % 4
  }

  method CountCode(text: string) returns (n: nat)
    ensures n == CodeLength(text, 0)
  {
    var i := 0;
    n := 0;
    while true
      invariant CodeLength(text, 0) == n + CodeLength(text, i)
      decreases |text| - i
    {
      var c := At(text, i);
      if IsBreak(c) {
        i := i + 1;
        continue;
      }
      if Value(c) > 63 {
        break;
      }
      i := i + 1;
      n := n + 1;
    }
  }

  /** base64_decode. */
  method Decode(text: string) returns (plain: seq<byte>, length: int)
    ensures plain == Decoded(text, 0, CodeLength(text, 0)) && length == DecodedLength(CodeLength(text, 0))
  {
    hide First, Second, Third, Value;
    var n := CountCode(text);
    ghost var n0 := n;
    length := (n + 3) / 4 * 3;
    plain := [];
    var i := 0;
    while n > 4
      invariant Decoded(text, 0, n0) == plain + Decoded(text, i, n)
      invariant if n0 > 4 then 0 < n <= n0 && n % 4 == n0 % 4 else n == n0
      decreases n, if i < |text| then |text| - i else 0
    {
      if IsBreak(At(text, i)) {
        i := i + 1;
        continue;
      }
      plain := plain + [First(Value(At(text, i)), Value(At(text, i + 1))),
                        Second(Value(At(text, i + 1)), Value(At(text, i + 2))),
                        Third(Value(At(text, i + 2)), Value(At(text, i + 3)))];
      i := i + 4;
      n := n - 4;
    }
    if n > 1 {
      plain := plain + [First(Value(At(text, i)), Value(At(text, i + 1)))];
    }
    if n > 2 {
      plain := plain + [Second(Value(At(text, i + 1)), Value(At(text, i + 2)))];
    }
    if n > 3 {
      plain := plain + [Third(Value(At(text, i + 2)), Value(At(text, i + 3)))];
    }
    length := length - (4 - n) % 4;
  }

  // ----- the round trip

  /** The characters of a group carry its bytes. */
  lemma GroupCarries(a: byte, b: byte, c: byte)
    ensures First(a / 4, a % 4 * 16 + b / 16) == a
    ensures Second(a % 4 * 16 + b / 16, b % 16 * 4 + c / 64) == b
    ensures Third(b % 16 * 4 + c / 64, c % 64) == c
  {
    hide Or;
    var v1, v2 := a % 4 * 16 + b / 16, b % 16 * 4 + c / 64;
    DivUnique(v1, 16, a % 4, b / 16);
    OrShifted(a / 4, a % 4);
    DivUnique(v2, 4, b % 16, c / 64);
    OrShifted(v1, b % 16);
    DivUnique(v1 * 16 + b % 16, 256, a % 4, b);
    OrShifted(v2, c % 64);
    DivUnique(v2 * 64 + c % 64, 256, b % 16, c);
  }

  /** The number of alphabet characters in the encoding of n bytes. */
  ghost function Codes(n: nat): nat
  {
    n / 3 * 4 + if n % 3 == 0 then 0 else n % 3 + 1
  }

  lemma BasisPlain(v: six)
    ensures !IsBreak(Basis(v)) && Basis(v) != PAD && Value(Basis(v)) == v
  {
  }

  lemma CodeStep(text: string, i: nat, v: six)
    requires i < |text| && text[i] == Basis(v)
    ensures CodeLength(text, i) == 1 + CodeLength(text, i + 1)
  {
    BasisPlain(v);
  }

  /** The encoding stands at i, and the text ends with it. */
  ghost predicate Ends(text: string, i: nat, code: string)
  {
    i + |code| == |text| && text[i..] == code
  }

  lemma {:induction false} CodesCounted(text: string, i: nat, s: seq<byte>)
    requires Ends(text, i, Encoded(s))
    ensures CodeLength(text, i) == Codes(|s|)
    decreases |s|
  {
    hide Basis;
    var code := Encoded(s);
    assert forall k :: 0 <= k < |code| ==> text[i + k] == code[k];
    if |s| >= 3 {
      CodeStep(text, i, s[0] / 4);
      CodeStep(text, i + 1, s[0] % 4 * 16 + s[1] / 16);
      CodeStep(text, i + 2, s[1] % 16 * 4 + s[2] / 64);
      CodeStep(text, i + 3, s[2] % 64);
      assert text[i + 4..] == text[i..][4..] == Encoded(s[3..]);
      CodesCounted(text, i + 4, s[3..]);
    } else if |s| == 2 {
      CodeStep(text, i, s[0] / 4);
      CodeStep(text, i + 1, s[0] % 4 * 16 + s[1] / 16);
      CodeStep(text, i + 2, s[1] % 16 * 4);
    } else if |s| == 1 {
      CodeStep(text, i, s[0] / 4);
      CodeStep(text, i + 1, s[0] % 4 * 16);
    }
  }

  lemma DecodesGroup(text: string, i: nat, a: byte, b: byte, c: byte, n: nat)
    requires n >= 4 && At(text, i) == Basis(a / 4) && At(text, i + 1) == Basis(a % 4 * 16 + b / 16)
    requires At(text, i + 2) == Basis(b % 16 * 4 + c / 64) && At(text, i + 3) == Basis(c % 64)
    ensures Decoded(text, i, n) == [a, b, c] + if n > 4 then Decoded(text, i + 4, n - 4) else []
  {
    hide Basis, Value, First, Second, Third;
    BasisPlain(a / 4);
    BasisPlain(a % 4 * 16 + b / 16);
    BasisPlain(b % 16 * 4 + c / 64);
    BasisPlain(c % 64);
    GroupCarries(a, b, c);
  }

  lemma {:induction false} DecodesBack(text: string, i: nat, s: seq<byte>)
    requires Ends(text, i, Encoded(s))
    ensures Decoded(text, i, Codes(|s|)) == s
    decreases |s|
  {
    hide Basis, Value, First, Second, Third;
    var code := Encoded(s);
    assert forall k :: 0 <= k < |code| ==> At(text, i + k) == code[k];
    if |s| >= 3 {
      assert At(text, i) == code[0] && At(text, i + 1) == code[1] && At(text, i + 2) == code[2] && At(text, i + 3) == code[3];
      DecodesGroup(text, i, s[0], s[1], s[2], Codes(|s|));
      if |s| > 3 {
        assert text[i + 4..] == text[i..][4..] == Encoded(s[3..]);
        DecodesBack(text, i + 4, s[3..]);
        assert s == [s[0], s[1], s[2]] + s[3..];
      }
    } else {
      DecodesTail(text, i, s);
    }
  }

  lemma DecodesTail(text: string, i: nat, s: seq<byte>)
    requires |s| < 3 && Ends(text, i, Tail(s))
    ensures Decoded(text, i, Codes(|s|)) == s
  {
    hide Basis, Value, First, Second, Third;
    var code := Tail(s);
    assert forall k :: 0 <= k < |code| ==> text[i + k] == text[i..][k] == code[k];
    if |s| == 2 {
      assert At(text, i) == code[0] && At(text, i + 1) == code[1] && At(text, i + 2) == code[2];
      BasisPlain(s[0] / 4);
      BasisPlain(s[0] % 4 * 16 + s[1] / 16);
      BasisPlain(s[1] % 16 * 4);
      GroupCarries(s[0], s[1], 0);
    } else if |s| == 1 {
      assert At(text, i) == code[0] && At(text, i + 1) == code[1];
      BasisPlain(s[0] / 4);
      BasisPlain(s[0] % 4 * 16);
      GroupCarries(s[0], 0, 0);
    }
  }

  /** Decoding undoes encoding, and the returned length is that of the byte string. */
  lemma RoundTrip(s: seq<byte>)
    ensures var text := Encoded(s);
            Decoded(text, 0, CodeLength(text, 0)) == s && DecodedLength(CodeLength(text, 0)) == |s|
  {
    hide Encoded, Decoded, CodeLength;
    var text := Encoded(s);
    assert text[0..] == text;
    CodesCounted(text, 0, s);
    DecodesBack(text, 0, s);
    LengthBack(|s|);
  }

  lemma LengthBack(n: nat)
    ensures DecodedLength(Codes(n)) == n
  {
  }

  // ----- decoding text with line breaks

  lemma BreakStep(text: string, i: nat)
    requires i + 1 < |text| && text[i] == '\r' && text[i + 1] == '\n'
    ensures CodeLength(text, i) == CodeLength(text, i + 2)
  {
    assert CodeLength(text, i + 1) == CodeLength(text, i + 2);
  }

  /** What stands where, when a wrapped encoding of at least one group ends the text. */
  lemma GroupStands(text: string, i: nat, s: seq<byte>, wrap: int, pc: nat)
    requires |s| >= 3 && Ends(text, i, Wrapped(s, wrap, pc))
    ensures var j := if Breaks(wrap, pc + 4) then i + 6 else i + 4;
            && j <= |text| && text[i..i + 4] == Group(s[0], s[1], s[2]) && Ends(text, j, Wrapped(s[3..], wrap, pc + 4))
            && (Breaks(wrap, pc + 4) ==> text[i + 4] == '\r' && text[i + 5] == '\n')
  {
    hide Wrapped, Group, Breaks;
    GroupLength(s[0], s[1], s[2]);
    WrappedUnfold(s, wrap, pc);
    var g, lb, rest := Group(s[0], s[1], s[2]), if Breaks(wrap, pc + 4) then "\r\n" else "", Wrapped(s[3..], wrap, pc + 4);
    var w := g + lb + rest;
    DropPrefix(g + lb, rest);
    DropMore(text, i, i + |g + lb|);
    assert text[i..i + 4] == w[..4] == g;
    if Breaks(wrap, pc + 4) {
      assert text[i + 4] == text[i..][4] == w[4] == lb[0] && text[i + 5] == text[i..][5] == w[5] == lb[1];
    }
  }

  lemma WrappedUnfold(s: seq<byte>, wrap: int, pc: nat)
    requires |s| >= 3
    ensures Wrapped(s, wrap, pc)
         == Group(s[0], s[1], s[2]) + (if Breaks(wrap, pc + 4) then "\r\n" else "") + Wrapped(s[3..], wrap, pc + 4)
  {
  }

  lemma GroupCodes(text: string, i: nat, a: byte, b: byte, c: byte)
    requires i + 4 <= |text| && text[i..i + 4] == Group(a, b, c)
    ensures CodeLength(text, i) == 4 + CodeLength(text, i + 4)
    ensures At(text, i) == Basis(a / 4) && At(text, i + 1) == Basis(a % 4 * 16 + b / 16)
    ensures At(text, i + 2) == Basis(b % 16 * 4 + c / 64) && At(text, i + 3) == Basis(c % 64)
  {
    hide Basis, CodeLength;
    var g := text[i..i + 4];
    assert g[0] == text[i] && g[1] == text[i + 1] && g[2] == text[i + 2] && g[3] == text[i + 3];
    CodeStep(text, i, a / 4);
    CodeStep(text, i + 1, a % 4 * 16 + b / 16);
    CodeStep(text, i + 2, b % 16 * 4 + c / 64);
    CodeStep(text, i + 3, c % 64);
  }

  /** Line breaks are not counted. */
  lemma {:induction false} WrappedCounted(text: string, i: nat, s: seq<byte>, wrap: int, pc: nat)
    requires Ends(text, i, Wrapped(s, wrap, pc))
    ensures CodeLength(text, i) == Codes(|s|)
    decreases |s|
  {
    hide Wrapped, Breaks, CodeLength, Group;
    if |s| >= 3 {
      GroupStands(text, i, s, wrap, pc);
      GroupCodes(text, i, s[0], s[1], s[2]);
      if Breaks(wrap, pc + 4) {
        BreakStep(text, i + 4);
        WrappedCounted(text, i + 6, s[3..], wrap, pc + 4);
      } else {
        WrappedCounted(text, i + 4, s[3..], wrap, pc + 4);
      }
    } else {
      ShortSame(s, wrap, pc);
      CodesCounted(text, i, s);
    }
  }

  lemma ShortSame(s: seq<byte>, wrap: int, pc: nat)
    requires |s| < 3
    ensures Wrapped(s, wrap, pc) == Tail(s) == Encoded(s)
  {
  }

  /** The last group read two characters early, from the line break on. */
  ghost function Misread(s: seq<byte>): seq<byte>
    requires 0 < |s| <= 3
  {
    var next: int := if |s| == 3 then s[0] % 4 * 16 + s[1] / 16 else 0;
    var first: int := s[0];
    [4, s[0] / 16, (first / 4 * 64 + next) % 256][..|s|]
  }

  /** What decoding makes of a wrapped encoding: the last group is misread if a line break precedes it. */
  ghost function Reread(s: seq<byte>, wrap: int, pc: nat): seq<byte>
    decreases |s|
  {
    if |s| <= 3 then s
    else s[..3] + if |s| <= 6 && Breaks(wrap, pc + 4) then Misread(s[3..]) else Reread(s[3..], wrap, pc + 4)
  }

  lemma BreakRead(x: nat, y: nat)
    ensures First(64, 64) == 4 && (x < 64 ==> Second(64, x) == x / 4) && (y < 64 ==> Third(x, y) == (x * 64 + y) % 256)
  {
    hide Or;
    OrShifted(4, 4);
    OrShifted(64, x / 4);
    OrShifted(x, y);
  }

  /** The last characters of at most one group. */
  lemma LastStands(text: string, i: nat, s: seq<byte>, wrap: int, pc: nat)
    requires 0 < |s| <= 3 && Ends(text, i, Wrapped(s, wrap, pc))
    ensures At(text, i) == Basis(s[0] / 4)
    ensures |s| == 3 ==> At(text, i + 1) == Basis(s[0] % 4 * 16 + s[1] / 16)
    ensures Decoded(text, i, Codes(|s|)) == s
  {
    hide Basis, Value, First, Second, Third, Decoded, Wrapped, Breaks;
    if |s| == 3 {
      GroupStands(text, i, s, wrap, pc);
      GroupCodes(text, i, s[0], s[1], s[2]);
      DecodesGroup(text, i, s[0], s[1], s[2], 4);
    } else {
      ShortSame(s, wrap, pc);
      DecodesTail(text, i, s);
      assert text[i..][0] == text[i];
    }
  }

  lemma MisreadLast(text: string, i: nat, s: seq<byte>, wrap: int, pc: nat)
    requires 0 < |s| <= 3 && Ends(text, i + 2, Wrapped(s, wrap, pc)) && At(text, i) == '\r' && At(text, i + 1) == '\n'
    ensures Decoded(text, i, Codes(|s|)) == Misread(s)
  {
    hide Basis, Value, First, Second, Third, Wrapped;
    LastStands(text, i + 2, s, wrap, pc);
    var v0, v1 := s[0] / 4, if |s| == 3 then s[0] % 4 * 16 + s[1] / 16 else 0;
    BreakRead(v0, v1);
    BasisPlain(v0);
    BasisPlain(v1);
    DivDiv(s[0], 4, 4);
    BreakValues();
  }

  lemma BreakValues()
    ensures Value('\r') == 64 && Value('\n') == 64
  {
  }

  lemma {:induction false} DecodesWrapped(text: string, i: nat, s: seq<byte>, wrap: int, pc: nat)
    requires Ends(text, i, Wrapped(s, wrap, pc))
    ensures Decoded(text, i, Codes(|s|)) == Reread(s, wrap, pc)
    decreases |s|
  {
    hide Basis, Value, First, Second, Third, Decoded, Wrapped, Breaks, Group;
    if s == [] {
      DecodedNone(text, i);
    } else if |s| <= 3 {
      LastStands(text, i, s, wrap, pc);
    } else {
      GroupStands(text, i, s, wrap, pc);
      GroupCodes(text, i, s[0], s[1], s[2]);
      DecodesGroup(text, i, s[0], s[1], s[2], Codes(|s|));
      var rest := s[3..];
      assert Codes(|rest|) == Codes(|s|) - 4 && s[..3] == [s[0], s[1], s[2]];
      if !Breaks(wrap, pc + 4) {
        DecodesWrapped(text, i + 4, rest, wrap, pc + 4);
      } else if |s| <= 6 {
        MisreadLast(text, i + 4, rest, wrap, pc + 4);
      } else {
        SkipsBreak(text, i + 4, Codes(|rest|));
        DecodesWrapped(text, i + 6, rest, wrap, pc + 4);
      }
    }
  }

  lemma DecodedNone(text: string, i: nat)
    ensures Decoded(text, i, 0) == []
  {
  }

  lemma SkipsBreak(text: string, i: nat, n: nat)
    requires n > 4 && At(text, i) == '\r' && At(text, i + 1) == '\n'
    ensures Decoded(text, i, n) == Decoded(text, i + 2, n)
  {
    hide Value, First, Second, Third;
    assert Decoded(text, i + 1, n) == Decoded(text, i + 2, n);
  }

  /** The bytes of the last group. */
  ghost function LastBytes(s: seq<byte>): seq<byte>
  {
    if |s| <= 3 then s else LastBytes(s[3..])
  }

  /** A line break precedes the last group of the encoding. */
  ghost predicate BreakBeforeLast(n: nat, wrap: int, pc: nat)
  {
    n > 3 && Breaks(wrap, pc + (n - 1) / 3 * 4)
  }

  lemma MisreadRight(s: seq<byte>)
    requires 0 < |s| <= 3
    ensures Misread(s) == s <==> s <= [4, 0, 64]
  {
    var m, right := Misread(s), [4, 0, 64];
    assert s <= right <==> forall k :: 0 <= k < |s| ==> s[k] == right[k];
    assert m[0] == 4 && (|s| > 1 ==> m[1] == s[0] / 16);
    if |s| == 3 && s[0] == 4 && s[1] == 0 {
      assert m[2] == 64;
    }
    assert m == s <==> forall k :: 0 <= k < |s| ==> s[k] == m[k];
    assert |s| > 2 ==> (s[1] == m[1] <==> s[1] == s[0] / 16);
  }

  lemma {:induction false} RereadRight(s: seq<byte>, wrap: int, pc: nat)
    ensures Reread(s, wrap, pc) == s <==> !BreakBeforeLast(|s|, wrap, pc) || LastBytes(s) <= [4, 0, 64]
    decreases |s|
  {
    hide Breaks, Misread;
    if |s| > 3 {
      var rest := s[3..];
      assert s == s[..3] + rest;
      assert forall t: seq<byte> :: (s[..3] + t)[3..] == t;
      if |s| <= 6 {
        assert (|s| - 1) / 3 == 1 && LastBytes(s) == rest;
        if Breaks(wrap, pc + 4) {
          MisreadRight(rest);
        }
      } else {
        assert pc + 4 + (|rest| - 1) / 3 * 4 == pc + (|s| - 1) / 3 * 4;
        RereadRight(rest, wrap, pc + 4);
      }
    }
  }

  /** Decoding undoes encoding with line breaks exactly when no break precedes the last group, the
      misreading of a few last groups apart. */
  lemma WrappedRoundTrip(s: seq<byte>, wrap: int)
    ensures var text := Wrapped(s, wrap, 0);
            && DecodedLength(CodeLength(text, 0)) == |s|
            && (Decoded(text, 0, CodeLength(text, 0)) == s <==> !BreakBeforeLast(|s|, wrap, 0) || LastBytes(s) <= [4, 0, 64])
  {
    hide Wrapped, Decoded, CodeLength, Reread, BreakBeforeLast;
    var text := Wrapped(s, wrap, 0);
    assert text[0..] == text;
    WrappedCounted(text, 0, s, wrap, 0);
    DecodesWrapped(text, 0, s, wrap, 0);
    RereadRight(s, wrap, 0);
    LengthBack(|s|);
  }

  /** Six zero bytes with a break after every fourth character do not come back. */
  lemma WrappedLoses()
    ensures var s: seq<byte> := [0, 0, 0, 0, 0, 0]; var text := Wrapped(s, 4, 0); Decoded(text, 0, CodeLength(text, 0)) != s
  {
    hide Wrapped, Decoded, CodeLength;
    var s: seq<byte> := [0, 0, 0, 0, 0, 0];
    WrappedRoundTrip(s, 4);
    assert s[3..] == [0, 0, 0] && LastBytes(s) == s[3..];
    assert LastBytes(s)[0] != [4, 0, 64][0];
  }

  // ----- the URL form

  function UrlChar(c: char): string
  {
    if c == '+' then "-" else if c == '/' then "_" else if c == PAD then "" else [c]
  }

  /** The text in the URL alphabet, without padding. */
  function Url(text: string): string
  {
    if text == "" then "" else UrlChar(text[0]) + Url(text[1..])
  }

  lemma {:induction false} UrlMore(a: string, b: string)
    ensures Url(a + b) == Url(a) + Url(b)
  {
    if a == "" {
      assert a + b == b;
    } else {
      assert (a + b)[1..] == a[1..] + b;
      UrlMore(a[1..], b);
      Assoc(UrlChar(a[0]), Url(a[1..]), Url(b));
    }
  }

  lemma {:induction false} UrlShorter(text: string)
    ensures |Url(text)| <= |text|
  {
    if text != "" {
      UrlShorter(text[1..]);
    }
  }

  /** base64_to_base64url: in place, the write position following the read position. */
  method ToUrl(text: array<char>, ghost n: nat) returns (w: nat)
    requires n < text.Length && text[n] == '\0' && forall i :: 0 <= i < n ==> text[i] != '\0'
    modifies text
    ensures w <= n && text[w] == '\0' && text[..w] == Url(old(text[..n]))
  {
    ghost var before := text[..n];
    var p := 0;
    w := 0;
    while text[p] != '\0'
      invariant w <= p <= n && text[n] == '\0' && text[..w] == Url(before[..p])
      invariant forall i :: p <= i < n ==> text[i] != '\0' && text[i] == before[i]
      decreases n - p
    {
      hide Url;
      var c := text[p];
      assert before[..p + 1] == before[..p] + [c];
      UrlMore(before[..p], [c]);
      UrlOne(c);
      if c == '+' {
        text[w] := '-';
        w := w + 1;
      } else if c == '/' {
        text[w] := '_';
        w := w + 1;
      } else if c != PAD {
        text[w] := c;
        w := w + 1;
      }
      p := p + 1;
    }
    assert before[..n] == before;
    text[w] := '\0';
  }

  lemma UrlOne(c: char)
    ensures Url([c]) == UrlChar(c)
  {
    assert [c][1..] == "";
    assert Url("") == "";
  }

  function PlainChar(c: char): char
  {
    if c == '-' then '+' else if c == '_' then '/' else c
  }

  function Plain(url: string): string
  {
    if url == "" then "" else Plain(url[..|url| - 1]) + [PlainChar(url[|url| - 1])]
  }

  function Pads(n: nat): string
  {
    if n == 0 then "" else Pads(n - 1) + [PAD]
  }

  /** The text in the plain alphabet, padded to whole groups. */
  function Unurl(url: string): string
  {
    Plain(url) + Pads((4 - |url| % 4) % 4)
  }

  /** base64url_to_base64. */
  method FromUrl(url: string) returns (text: string)
    ensures text == Unurl(url)
  {
    text := "";
    for i := 0 to |url|
      invariant text == Plain(url[..i])
    {
      assert url[..i + 1][..i] == url[..i];
      if url[i] == '-' {
        text := text + ['+'];
      } else if url[i] == '_' {
        text := text + ['/'];
      } else {
        text := text + [url[i]];
      }
    }
    assert url[..|url|] == url;
    var padding := (4 - |url| % 4) % 4;
    ghost var plain := text;
    assert text == plain + Pads(0);
    for i := 0 to padding
      invariant text == plain + Pads(i)
    {
      Assoc(plain, Pads(i), [PAD]);
      text := text + [PAD];
    }
  }

  /** A text of the plain alphabet comes back from the URL form without its padding. */
  lemma {:induction false} PlainUrl(text: string)
    requires forall i :: 0 <= i < |text| ==> Value(text[i]) <= 63
    ensures Plain(Url(text)) == text && |Url(text)| == |text|
  {
    hide Value, UrlChar, PlainChar;
    if text != "" {
      var k := |text| - 1;
      PlainUrl(text[..k]);
      assert text == text[..k] + [text[k]];
      UrlMore(text[..k], [text[k]]);
      UrlOne(text[k]);
      CharBack(text[k]);
      PlainLast(Url(text[..k]), UrlChar(text[k])[0]);
      assert UrlChar(text[k]) == [UrlChar(text[k])[0]];
    }
  }

  lemma CharBack(c: char)
    requires Value(c) <= 63
    ensures |UrlChar(c)| == 1 && PlainChar(UrlChar(c)[0]) == c
  {
  }

  lemma PlainLast(u: string, c: char)
    ensures Plain(u + [c]) == Plain(u) + [PlainChar(c)]
  {
    assert (u + [c])[..|u|] == u;
  }

  /** An encoding is characters of the alphabet, then the padding that completes the last group. */
  lemma {:induction false} EncodedShape(s: seq<byte>) returns (code: string)
    ensures Encoded(s) == code + Pads((4 - |code| % 4) % 4) && forall i :: 0 <= i < |code| ==> Value(code[i]) <= 63
    decreases |s|
  {
    hide Group, Tail, Value, Pads;
    if |s| >= 3 {
      var rest := EncodedShape(s[3..]);
      var g := Group(s[0], s[1], s[2]);
      GroupAlphabet(s[0], s[1], s[2]);
      code := g + rest;
      Assoc(g, rest, Pads((4 - |rest| % 4) % 4));
    } else {
      code := TailShape(s);
    }
  }

  lemma TailShape(s: seq<byte>) returns (code: string)
    requires |s| < 3
    ensures Tail(s) == code + Pads((4 - |code| % 4) % 4) && forall i :: 0 <= i < |code| ==> Value(code[i]) <= 63
  {
    hide Basis, Value;
    assert Pads(0) == "" && Pads(1) == [PAD] && Pads(2) == [PAD, PAD];
    if |s| == 0 {
      code := "";
    } else if |s| == 1 {
      BasisPlain(s[0] / 4);
      BasisPlain(s[0] % 4 * 16);
      code := [Basis(s[0] / 4), Basis(s[0] % 4 * 16)];
    } else {
      BasisPlain(s[0] / 4);
      BasisPlain(s[0] % 4 * 16 + s[1] / 16);
      BasisPlain(s[1] % 16 * 4);
      code := [Basis(s[0] / 4), Basis(s[0] % 4 * 16 + s[1] / 16), Basis(s[1] % 16 * 4)];
    }
  }

  lemma GroupAlphabet(a: byte, b: byte, c: byte)
    ensures |Group(a, b, c)| == 4 && forall i :: 0 <= i < 4 ==> Value(Group(a, b, c)[i]) <= 63
  {
  }

  /** The URL form loses nothing: going there and back gives the encoding again. */
  lemma UrlRoundTrip(s: seq<byte>)
    ensures Unurl(Url(Encoded(s))) == Encoded(s)
  {
    hide Encoded;
    var code := EncodedShape(s);
    var n := (4 - |code| % 4) % 4;
    UrlMore(code, Pads(n));
    PadsVanish(n);
    PlainUrl(code);
    assert Url(code) + "" == Url(code);
  }

  lemma {:induction false} PadsVanish(n: nat)
    ensures Url(Pads(n)) == ""
  {
    if n > 0 {
      PadsVanish(n - 1);
      UrlMore(Pads(n - 1), [PAD]);
      UrlOne(PAD);
    }
  }

  /** Bytes encoded, put into the URL form, taken out of it and decoded are the same bytes. */
  lemma UrlCarries(s: seq<byte>)
    ensures var text := Unurl(Url(Encoded(s)));
            Decoded(text, 0, CodeLength(text, 0)) == s && DecodedLength(CodeLength(text, 0)) == |s|
  {
    hide Encoded, Decoded, CodeLength, Unurl, Url;
    UrlRoundTrip(s);
    RoundTrip(s);
  }

  /** The alphabet of section 5 of RFC 4648, without padding. */
  lemma {:induction false} UrlSafe(text: string)
    requires forall i :: 0 <= i < |text| ==> text[i] in ALPHABET || text[i] == '='
    ensures forall i :: 0 <= i < |Url(text)| ==> Url(text)[i] in UPPER + LOWER + DIGITS + "-_"
  {
    if text != "" {
      UrlSafe(text[1..]);
      UrlSafeOne(text[0]);
    }
  }

  lemma UrlSafeOne(c: char)
    requires c in ALPHABET || c == '='
    ensures UrlChar(c) == if c == '+' then "-" else if c == '/' then "_" else if c == '=' then "" else [c]
    ensures forall i :: 0 <= i < |UrlChar(c)| ==> UrlChar(c)[i] in UPPER + LOWER + DIGITS + "-_"
  {
    hide ALPHABET;
    if c != '=' {
      InAlphabet(c);
    }
  }

  lemma InAlphabet(c: char)
    requires c in ALPHABET
    ensures c in UPPER || c in LOWER || c in DIGITS || c == '+' || c == '/'
  {
    assert c in "+/" ==> c == '+' || c == '/';
  }
}
