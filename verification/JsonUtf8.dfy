/** The strings that survive printing and parsing are UTF-8 by sections 3 and 4 of RFC 3629: the
    concatenations of the encodings of Unicode scalar values, and nothing else. */
module JsonUtf8 {
  import opened Arith
  import opened Common
  import opened Sequences
  import opened JsonString

  predicate Scalar(c: nat)
  {
    c <= 0x10FFFF && !(0xD800 <= c <= 0xDFFF)
  }

  ghost predicate Scalars(cs: seq<nat>)
  {
    forall i :: 0 <= i < |cs| ==> Scalar(cs[i])
  }

  ghost function EncodeAll(cs: seq<nat>): seq<byte>
    requires Scalars(cs)
  {
    if cs == [] then [] else Utf8Encode(cs[0]) + EncodeAll(cs[1..])
  }

  /** The table of section 3 of RFC 3629: the octets s carry the scalar value c. */
  ghost predicate Utf8Of(c: nat, s: seq<byte>)
  {
    if |s| == 1 then c <= 0x7F && s[0] == c
    else if |s| == 2 then
      0x80 <= c <= 0x7FF && 0xC0 <= s[0] <= 0xDF && 0x80 <= s[1] <= 0xBF && c == (s[0] as int - 0xC0) * 64 + (s[1] as int - 0x80)
    else if |s| == 3 then
      && 0x800 <= c <= 0xFFFF && 0xE0 <= s[0] <= 0xEF && 0x80 <= s[1] <= 0xBF && 0x80 <= s[2] <= 0xBF
      && c == ((s[0] as int - 0xE0) * 64 + (s[1] as int - 0x80)) * 64 + (s[2] as int - 0x80)
    else
      && |s| == 4 && 0x10000 <= c <= 0x10FFFF
      && 0xF0 <= s[0] <= 0xF7 && 0x80 <= s[1] <= 0xBF && 0x80 <= s[2] <= 0xBF && 0x80 <= s[3] <= 0xBF
      && c == (((s[0] as int - 0xF0) * 64 + (s[1] as int - 0x80)) * 64 + (s[2] as int - 0x80)) * 64 + (s[3] as int - 0x80)
  }

  /** What the scanner writes for a scalar value is its line of that table. */
  lemma Utf8OfIs(c: nat, s: seq<byte>)
    requires c <= 0x10FFFF
    ensures Utf8Of(c, s) <==> s == Utf8Encode(c)
  {
    if c < 0x80 {
    } else if c < 0x800 {
      Utf8Of2(c, s);
    } else if c < 0x10000 {
      Utf8Of3(c, s);
    } else {
      Utf8Of4(c, s);
    }
  }

  lemma Utf8Of2(c: nat, s: seq<byte>)
    requires 0x80 <= c < 0x800
    ensures Utf8Of(c, s) <==> s == Utf8Encode(c)
  {
    if Utf8Of(c, s) {
      Digits2(s[0] - 0xC0, s[1] - 0x80);
    }
  }

  lemma Utf8Of3(c: nat, s: seq<byte>)
    requires 0x800 <= c < 0x10000
    ensures Utf8Of(c, s) <==> s == Utf8Encode(c)
  {
    Split3(c);
    if Utf8Of(c, s) {
      Digits3(s[0] - 0xE0, s[1] - 0x80, s[2] - 0x80);
    }
  }

  lemma Utf8Of4(c: nat, s: seq<byte>)
    requires 0x10000 <= c <= 0x10FFFF
    ensures Utf8Of(c, s) <==> s == Utf8Encode(c)
  {
    Split4(c);
    if Utf8Of(c, s) {
      Digits4(s[0] - 0xF0, s[1] - 0x80, s[2] - 0x80, s[3] - 0x80);
    }
  }

  lemma LowOf(x: int, base: int, m: nat)
    requires 0 <= x < m && 0 <= base && base % m == 0 && base + x < 256 && m > 0
    ensures Low(base + x, m) == x
  {
    Divides(base, m);
    DivUnique(base + x, m, base / m, x);
  }

  lemma Tail(x: int)
    requires 0 <= x < 64
    ensures Low(0x80 + x, 64) == x && Continuation(0x80 + x)
  {
    LowOf(x, 0x80, 64);
  }

  lemma Split3(c: nat)
    ensures c == c / 4096 * 4096 + c / 64 % 64 * 64 + c % 64
  {
    DivDiv(c, 64, 64);
  }

  lemma Split4(c: nat)
    ensures c == c / 262144 * 262144 + c / 4096 % 64 * 4096 + c / 64 % 64 * 64 + c % 64
  {
    Split3(c);
    DivDiv(c, 4096, 64);
  }

  /** The decoder finds every encoded scalar value, whatever follows. */
  lemma EncodeDecode(c: nat, tail: seq<byte>)
    requires Scalar(c)
    ensures Utf8Decode(Utf8Encode(c) + tail) == Decoded(|Utf8Encode(c)|, c) && |Utf8Encode(c)| > 0
  {
    hide Low;
    var s := Utf8Encode(c) + tail;
    if c < 0x80 {
      assert s[0] == c;
    } else if c < 0x800 {
      assert s[0] == 0xC0 + c / 64 && s[1] == 0x80 + c % 64;
      LowOf(c / 64, 0xC0, 32);
      Tail(c % 64);
    } else if c < 0x10000 {
      EncodeDecode3(c, tail);
    } else {
      EncodeDecode4(c, tail);
    }
  }

  lemma EncodeDecode3(c: nat, tail: seq<byte>)
    requires Scalar(c) && 0x800 <= c < 0x10000
    ensures Utf8Decode(Utf8Encode(c) + tail) == Decoded(3, c)
  {
    hide Low;
    var s := Utf8Encode(c) + tail;
    assert s[0] == 0xE0 + c / 4096 && s[1] == 0x80 + c / 64 % 64 && s[2] == 0x80 + c % 64;
    LowOf(c / 4096, 0xE0, 16);
    Tail(c / 64 % 64);
    Tail(c % 64);
    Split3(c);
  }

  lemma EncodeDecode4(c: nat, tail: seq<byte>)
    requires Scalar(c) && c >= 0x10000
    ensures Utf8Decode(Utf8Encode(c) + tail) == Decoded(4, c)
  {
    hide Low;
    var s := Utf8Encode(c) + tail;
    assert s[0] == 0xF0 + c / 262144 && s[1] == 0x80 + c / 4096 % 64 && s[2] == 0x80 + c / 64 % 64 && s[3] == 0x80 + c % 64;
    LowOf(c / 262144, 0xF0, 8);
    Tail(c / 4096 % 64);
    Tail(c / 64 % 64);
    Tail(c % 64);
    Split4(c);
  }

  lemma {:induction false} EncodingsValid(cs: seq<nat>)
    requires Scalars(cs)
    ensures ValidUtf8(EncodeAll(cs))
  {
    if cs != [] {
      EncodingsValid(cs[1..]);
      EncodeDecode(cs[0], EncodeAll(cs[1..]));
      DropPrefix(Utf8Encode(cs[0]), EncodeAll(cs[1..]));
      hide Utf8Decode, Utf8Encode;
    }
  }

  lemma {:induction false} ValidEncodings(s: seq<byte>) returns (cs: seq<nat>)
    requires ValidUtf8(s)
    ensures Scalars(cs) && EncodeAll(cs) == s
    decreases |s|
  {
    hide Utf8Decode, Utf8Encode;
    if s == [] {
      cs := [];
    } else {
      var r := Utf8Decode(s);
      DecodeEncode(s);
      var rest := ValidEncodings(s[r.size..]);
      cs := [r.codepoint] + rest;
      assert cs[1..] == rest;
      assert s == s[..r.size] + s[r.size..];
    }
  }

  /** What the string coder treats as valid is exactly UTF-8. */
  lemma ValidIsUtf8(s: seq<byte>)
    ensures ValidUtf8(s) <==> exists cs :: Scalars(cs) && EncodeAll(cs) == s
  {
    if ValidUtf8(s) {
      var cs := ValidEncodings(s);
      assert Scalars(cs) && EncodeAll(cs) == s;
    }
    if cs :| Scalars(cs) && EncodeAll(cs) == s {
      EncodingsValid(cs);
    }
  }

  // ----- what becomes of malformed text

  /** A well-formed character stays. */
  lemma CleanGood(c: nat, rest: seq<byte>)
    requires Scalar(c)
    ensures Clean(Utf8Encode(c) + rest) == Utf8Encode(c) + Clean(rest)
  {
    EncodeDecode(c, rest);
    AsciiFirst(c);
    hide Utf8Decode, Utf8Encode;
    var e := Utf8Encode(c);
    DropPrefix(e, rest);
    assert (e + rest)[0] == e[0];
    CleanFirst(e + rest);
  }

  lemma AsciiFirst(c: nat)
    requires Scalar(c)
    ensures Utf8Encode(c)[0] < 0x80 ==> |Utf8Encode(c)| == 1
  {
  }

  lemma CleanFirst(s: seq<byte>)
    requires s != []
    ensures Clean(s) == UnitText(s) + Clean(s[UnitSize(s)..])
  {
  }

  /** No character stands at the front of s. */
  ghost predicate NoScalar(s: seq<byte>)
  {
    forall c: nat :: Scalar(c) ==> !(Utf8Encode(c) <= s)
  }

  lemma NoneDecodes(s: seq<byte>)
    requires s != [] && NoScalar(s)
    ensures s[0] >= 0x80 && Utf8Decode(s).size == 0
  {
    hide Utf8Encode, Utf8Decode;
    if Utf8Decode(s).size > 0 {
      DecodeEncode(s);
    } else if s[0] < 0x80 {
      AsciiDecodes(s);
    }
  }

  lemma AsciiDecodes(s: seq<byte>)
    requires s != [] && s[0] < 0x80
    ensures Utf8Decode(s).size > 0
  {
  }

  /** There, one octet and the octets of the form 10xxxxxx behind it become one replacement character. */
  lemma CleanBad(b: byte, run: seq<byte>, rest: seq<byte>)
    requires NoScalar([b] + run + rest)
    requires (forall i :: 0 <= i < |run| ==> 0x80 <= run[i] <= 0xBF) && (rest == [] || !(0x80 <= rest[0] <= 0xBF))
    ensures Clean([b] + run + rest) == [0xEF, 0xBF, 0xBD] + Clean(rest)
  {
    hide Utf8Decode, Utf8Encode, NoScalar, Clean;
    var s := [b] + run + rest;
    NoneDecodes(s);
    assert s[1..] == run + rest;
    RunLength(run, rest);
    assert s[1 + |run|..] == rest;
    ReplacementIs();
    CleanFirst(s);
  }

  lemma ReplacementIs()
    ensures Utf8Encode(REPLACEMENT) == [0xEF, 0xBF, 0xBD]
  {
  }

  lemma {:induction false} RunLength(run: seq<byte>, rest: seq<byte>)
    requires (forall i :: 0 <= i < |run| ==> 0x80 <= run[i] <= 0xBF) && (rest == [] || !(0x80 <= rest[0] <= 0xBF))
    ensures ContinuationRun(run + rest) == |run|
  {
    if run == [] {
      assert run + rest == rest;
    } else {
      assert (run + rest)[1..] == run[1..] + rest;
      RunLength(run[1..], rest);
    }
  }
}
