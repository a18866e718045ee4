/** String coding of misc/json.c: the escaper used by the printer, the string scanner used by
    the parser, and UTF-8 and UTF-16 in between. Bytes are integers from 0 to 255. */
module JsonString {
  import opened Common
  import opened Sequences

  const QUOTE: byte := 0x22
  const BACKSLASH: byte := 0x5C
  const LETTER_U: byte := 0x75
  const REPLACEMENT := 0xFFFD

  // ----- UTF-8

  /** The low bits of a byte, under a mask m - 1. */
  function Low(b: byte, m: nat): nat
    requires m > 0
  {
    (b as int) % m
  }

  predicate Continuation(b: byte) {
    0x80 <= b < 0xC0
  }

  /** The first code point of a byte string: its length in bytes (0 for malformed input) and value. */
  datatype Decoded = Decoded(size: nat, codepoint: nat)

  const MALFORMED := Decoded(0, 0)

  function Utf8Decode(s: seq<byte>): (r: Decoded)
    ensures r.size <= |s|
  {
    if |s| == 0 then MALFORMED
    else if s[0] < 0x80 then Decoded(1, s[0])
    else if 0xC0 <= s[0] < 0xE0 then
      if |s| < 2 || s[0] < 0xC2 || !Continuation(s[1]) then MALFORMED
      else Decoded(2, Low(s[0], 32) * 64 + Low(s[1], 64))
    else if 0xE0 <= s[0] < 0xF0 then
      if |s| < 3 || !Continuation(s[1]) || !Continuation(s[2]) then MALFORMED
      else
        var c := Low(s[0], 16) * 4096 + Low(s[1], 64) * 64 + Low(s[2], 64);
        if c < 0x800 || 0xD800 <= c <= 0xDFFF then MALFORMED else Decoded(3, c)
    else if 0xF0 <= s[0] < 0xF8 then
      if |s| < 4 || s[0] > 0xF4 || !Continuation(s[1]) || !Continuation(s[2]) || !Continuation(s[3]) then MALFORMED
      else
        var c := Low(s[0], 8) * 262144 + Low(s[1], 64) * 4096 + Low(s[2], 64) * 64 + Low(s[3], 64);
        if c < 0x10000 || c > 0x10FFFF then MALFORMED else Decoded(4, c)
    else MALFORMED
  }

  /** The UTF-8 form of a code point, as the scanner writes it. */
  function Utf8Encode(c: nat): (r: seq<byte>)
    requires c <= 0x10FFFF
  {
    if c < 0x80 then [c]
    else if c < 0x800 then [0xC0 + c / 64, 0x80 + c % 64]
    else if c < 0x10000 then [0xE0 + c / 4096, 0x80 + c / 64 % 64, 0x80 + c % 64]
    else [0xF0 + c / 262144, 0x80 + c / 4096 % 64, 0x80 + c / 64 % 64, 0x80 + c % 64]
  }

  lemma Digits2(a: nat, b: nat)
    requires b < 64
    ensures (a * 64 + b) / 64 == a && (a * 64 + b) % 64 == b
  {
  }

  lemma Digits3(a: nat, b: nat, c: nat)
    requires b < 64 && c < 64
    ensures var n := a * 4096 + b * 64 + c; n / 4096 == a && n / 64 % 64 == b && n % 64 == c
  {
    Digits2(a * 64 + b, c);
    Digits2(a, b);
  }

  lemma Digits4(a: nat, b: nat, c: nat, d: nat)
    requires b < 64 && c < 64 && d < 64
    ensures var n := a * 262144 + b * 4096 + c * 64 + d;
            n / 262144 == a && n / 4096 % 64 == b && n / 64 % 64 == c && n % 64 == d
  {
    Digits3(a * 64 + b, c, d);
    Digits2(a, b);
  }

  /** Decoding is exact: the bytes read are the UTF-8 form of the code point. */
  lemma DecodeEncode(s: seq<byte>)
    requires Utf8Decode(s).size > 0
    ensures Utf8Decode(s).codepoint <= 0x10FFFF
    ensures !(0xD800 <= Utf8Decode(s).codepoint <= 0xDFFF)
    ensures Utf8Encode(Utf8Decode(s).codepoint) == s[..Utf8Decode(s).size]
  {
    var r := Utf8Decode(s);
    if r.size == 2 {
      Digits2(Low(s[0], 32), Low(s[1], 64));
    } else if r.size == 3 {
      DecodeEncode3(s[0], s[1], s[2]);
    } else if r.size == 4 {
      DecodeEncode4(s[0], s[1], s[2], s[3]);
    }
  }

  lemma DecodeEncode3(b0: byte, b1: byte, b2: byte)
    requires 0xE0 <= b0 < 0xF0 && Continuation(b1) && Continuation(b2)
    ensures var c := Low(b0, 16) * 4096 + Low(b1, 64) * 64 + Low(b2, 64);
            c <= 0xFFFF && (c >= 0x800 ==> Utf8Encode(c) == [b0, b1, b2])
  {
    Digits3(Low(b0, 16), Low(b1, 64), Low(b2, 64));
  }

  lemma DecodeEncode4(b0: byte, b1: byte, b2: byte, b3: byte)
    requires 0xF0 <= b0 <= 0xF4 && Continuation(b1) && Continuation(b2) && Continuation(b3)
    ensures var c := Low(b0, 8) * 262144 + Low(b1, 64) * 4096 + Low(b2, 64) * 64 + Low(b3, 64);
            0x10000 <= c <= 0x10FFFF ==> Utf8Encode(c) == [b0, b1, b2, b3]
  {
    LowTail(b1);
    LowTail(b2);
    LowTail(b3);
    assert b0 == 0xF0 + Low(b0, 8);
    hide Low;
    Digits4(Low(b0, 8), Low(b1, 64), Low(b2, 64), Low(b3, 64));
  }

  lemma LowTail(b: byte)
    requires Continuation(b)
    ensures b == 0x80 + Low(b, 64) && Low(b, 64) < 64
  {
  }

  /** Decoding looks no further than the code point it finds. */
  lemma DecodePrefix(s: seq<byte>, tail: seq<byte>)
    requires Utf8Decode(s).size > 0
    ensures Utf8Decode(s[..Utf8Decode(s).size] + tail) == Utf8Decode(s)
  {
  }

  ghost predicate ValidUtf8(s: seq<byte>)
  {
    s == [] || (Utf8Decode(s).size > 0 && ValidUtf8(s[Utf8Decode(s).size..]))
  }

  // ----- escaping (the printer's side)

  function HexDigit(n: nat): byte
    requires n < 16
  {
    if n < 10 then 0x30 + n else 0x57 + n
  }

  /** "\uXXXX" in lower-case hexadecimal. */
  function EscapeU(c: nat): (r: seq<byte>)
    requires c <= 0xFFFF
    ensures |r| == 6
  {
    [BACKSLASH, LETTER_U, HexDigit(c / 4096), HexDigit(c / 256 % 16), HexDigit(c / 16 % 16), HexDigit(c % 16)]
  }

  /** One escape, or a surrogate pair of escapes beyond U+FFFF. */
  function EscapeCodepoint(c: nat): (r: seq<byte>)
    requires c <= 0x10FFFF
  {
    if c <= 0xFFFF then EscapeU(c)
    else EscapeU(0xD800 + (c - 0x10000) / 1024) + EscapeU(0xDC00 + (c - 0x10000) % 1024)
  }

  /** The letter after the backslash for the characters with a short escape, or 0. */
  function ShortEscape(b: byte): byte
  {
    if b == QUOTE then QUOTE
    else if b == BACKSLASH then BACKSLASH
    else if b == 0x08 then 0x62
    else if b == 0x0C then 0x66
    else if b == 0x0A then 0x6E
    else if b == 0x0D then 0x72
    else if b == 0x09 then 0x74
    else 0
  }

  function ContinuationRun(s: seq<byte>): (n: nat)
    ensures n <= |s|
  {
    if s != [] && Continuation(s[0]) then 1 + ContinuationRun(s[1..]) else 0
  }

  /** How many source bytes are escaped together. */
  function UnitSize(s: seq<byte>): (n: nat)
    requires s != []
    ensures 0 < n <= |s|
  {
    if s[0] < 0x80 then 1
    else if Utf8Decode(s).size == 0 then 1 + ContinuationRun(s[1..])
    else Utf8Decode(s).size
  }

  function EscapeUnit(s: seq<byte>, ascii: bool): seq<byte>
    requires s != []
  {
    if ShortEscape(s[0]) != 0 then [BACKSLASH, ShortEscape(s[0])]
    else if s[0] < 0x20 then EscapeU(s[0])
    else if s[0] < 0x80 then [s[0]]
    else if Utf8Decode(s).size == 0 then EscapeCodepoint(REPLACEMENT)
    else if ascii then DecodeEncode(s); EscapeCodepoint(Utf8Decode(s).codepoint)
    else s[..Utf8Decode(s).size]
  }

  function Escape(s: seq<byte>, ascii: bool): seq<byte>
    decreases |s|
  {
    if s == [] then [] else EscapeUnit(s, ascii) + Escape(s[UnitSize(s)..], ascii)
  }

  /** The text an escaped unit stands for: itself, or U+FFFD for malformed UTF-8. */
  function UnitText(s: seq<byte>): seq<byte>
    requires s != []
  {
    if s[0] >= 0x80 && Utf8Decode(s).size == 0 then Utf8Encode(REPLACEMENT) else s[..UnitSize(s)]
  }

  /** A byte string with every malformed UTF-8 sequence replaced by U+FFFD. */
  function Clean(s: seq<byte>): seq<byte>
    decreases |s|
  {
    if s == [] then [] else UnitText(s) + Clean(s[UnitSize(s)..])
  }

  /** Skips the continuation bytes after a malformed start. */
  method SkipContinuations(source: seq<byte>, start: nat) returns (i: nat)
    requires start <= |source|
    ensures i == start + ContinuationRun(source[start..]) && i <= |source|
  {
    i := start;
    while i < |source| && Continuation(source[i])
      invariant start <= i <= |source|
      invariant i - start + ContinuationRun(source[i..]) == ContinuationRun(source[start..])
    {
      assert source[i..][1..] == source[i + 1..];
      i := i + 1;
    }
  }

  /** Escapes the unit at position i. */
  method ProcessUnit(source: seq<byte>, i: nat, ascii: bool) returns (e: seq<byte>, next: nat)
    requires i < |source|
    ensures e == EscapeUnit(source[i..], ascii) && next == i + UnitSize(source[i..])
  {
    var ch := source[i];
    next := i + 1;
    if ShortEscape(ch) != 0 {
      e := [BACKSLASH, ShortEscape(ch)];
    } else if ch < 0x20 {
      e := EscapeU(ch);
    } else if ch < 0x80 {
      e := [ch];
    } else {
      var d := Utf8Decode(source[i..]);
      if d.size == 0 {
        e := EscapeCodepoint(REPLACEMENT);
        assert source[i..][1..] == source[i + 1..];
        next := SkipContinuations(source, i + 1);
      } else {
        DecodeEncode(source[i..]);
        if ascii {
          e := EscapeCodepoint(d.codepoint);
        } else {
          e := source[i..i + d.size];
        }
        next := i + d.size;
      }
    }
  }

  /** __json_process_string_escapes: appends the escaped form of the source. */
  method ProcessEscapes(source: seq<byte>, dest: seq<byte>, ascii: bool) returns (out: seq<byte>)
    ensures out == dest + Escape(source, ascii)
  {
    hide EscapeUnit, UnitSize;
    out := dest;
    var i := 0;
    assert source[0..] == source;
    while i < |source|
      invariant 0 <= i <= |source|
      invariant out + Escape(source[i..], ascii) == dest + Escape(source, ascii)
    {
      ghost var unit, before := source[i..], out;
      var e;
      e, i := ProcessUnit(source, i, ascii);
      out := out + e;
      assert unit[UnitSize(unit)..] == source[i..];
      assert before + (e + Escape(source[i..], ascii)) == out + Escape(source[i..], ascii);
    }
  }

  // ----- scanning (the parser's side)

  function HexValue(b: byte): (r: Option<nat>)
    ensures r.Some? ==> r.value < 16
  {
    if 0x30 <= b <= 0x39 then Some(b - 0x30)
    else if 0x61 <= b <= 0x66 then Some(b - 0x57)
    else if 0x41 <= b <= 0x46 then Some(b - 0x37)
    else None
  }

  function Hex4(s: seq<byte>): (r: Option<nat>)
    requires |s| == 4
    ensures r.Some? ==> r.value <= 0xFFFF
  {
    if HexValue(s[0]).Some? && HexValue(s[1]).Some? && HexValue(s[2]).Some? && HexValue(s[3]).Some? then
      Some(HexValue(s[0]).value * 4096 + HexValue(s[1]).value * 256 + HexValue(s[2]).value * 16 + HexValue(s[3]).value)
    else None
  }

  /** The character a one-letter escape stands for, or 0. */
  function Unescape(b: byte): byte
  {
    if b == 0x62 then 0x08
    else if b == 0x66 then 0x0C
    else if b == 0x6E then 0x0A
    else if b == 0x72 then 0x0D
    else if b == 0x74 then 0x09
    else if b == QUOTE || b == BACKSLASH || b == 0x2F then b
    else 0
  }

  datatype Unit = End | Bad | Take(size: nat, text: seq<byte>)

  /** An escape "\uXXXX", with its low surrogate if it is a high one. */
  function ScanU(s: seq<byte>): (r: Unit)
    requires |s| >= 2
    ensures r.Take? ==> 0 < r.size <= |s|
  {
    if |s| < 6 || Hex4(s[2..6]).None? then Bad
    else
      var c := Hex4(s[2..6]).value;
      if 0xD800 <= c <= 0xDBFF then
        if |s| < 8 || s[6] != BACKSLASH || s[7] != LETTER_U || |s| < 12 || Hex4(s[8..12]).None? then Bad
        else
          var low := Hex4(s[8..12]).value;
          if low < 0xDC00 || low > 0xDFFF then Bad
          else Take(12, Utf8Encode(0x10000 + (c - 0xD800) * 1024 + (low - 0xDC00)))
      else if 0xDC00 <= c <= 0xDFFF then Bad
      else Take(6, Utf8Encode(c))
  }

  /** What the scanner does at the front of s. */
  function ScanUnit(s: seq<byte>): (r: Unit)
    ensures r.Take? ==> 0 < r.size <= |s|
  {
    if s == [] || s[0] == 0 then Bad
    else if s[0] == QUOTE then End
    else if s[0] < 0x20 then Bad
    else if s[0] == BACKSLASH then
      if |s| < 2 || s[1] == 0 then Bad
      else if s[1] == LETTER_U then ScanU(s)
      else if Unescape(s[1]) != 0 then Take(2, [Unescape(s[1])])
      else Bad
    else if Utf8Decode(s).size > 0 then Take(Utf8Decode(s).size, s[..Utf8Decode(s).size])
    else Bad
  }

  /** The text up to the closing quote and the number of bytes read, the quote included. */
  datatype Scanned = Scanned(text: seq<byte>, size: nat)

  function Scan(s: seq<byte>): (r: Option<Scanned>)
    ensures r.Some? ==> 0 < r.value.size <= |s|
    decreases |s|
  {
    match ScanUnit(s)
    case Bad => None
    case End => Some(Scanned([], 1))
    case Take(n, text) =>
      match Scan(s[n..])
      case None => None
      case Some(rest) => Some(Scanned(text + rest.text, n + rest.size))
  }

  /** Four hexadecimal digits, most significant first. */
  method ReadHex4(json: seq<byte>, start: nat) returns (r: Option<nat>)
    requires start + 4 <= |json|
    ensures r == Hex4(json[start..start + 4])
  {
    ghost var d := json[start..start + 4];
    var codepoint: nat := 0;
    var i := 0;
    while i < 4
      invariant 0 <= i <= 4
      invariant forall k :: 0 <= k < i ==> HexValue(d[k]).Some?
      invariant i == 1 ==> codepoint == HexValue(d[0]).value
      invariant i == 2 ==> codepoint == HexValue(d[0]).value * 16 + HexValue(d[1]).value
      invariant i == 3 ==> codepoint == HexValue(d[0]).value * 256 + HexValue(d[1]).value * 16 + HexValue(d[2]).value
      invariant i == 4 ==> Hex4(d) == Some(codepoint)
      invariant i == 0 ==> codepoint == 0
    {
      assert d[i] == json[start + i];
      var v := HexValue(json[start + i]);
      if v.None? {
        return None;
      }
      codepoint := codepoint * 16 + v.value;
      i := i + 1;
    }
    r := Some(codepoint);
  }

  /** The escape at scan, which is a backslash; the new position, or None on error. */
  method ReadEscape(json: seq<byte>, start: nat) returns (r: Unit)
    requires start < |json| && json[start] == BACKSLASH
    ensures r == ScanUnit(json[start..])
  {
    ghost var s := json[start..];
    var scan := start + 1;
    if scan >= |json| || json[scan] == 0 {
      return Bad;
    }
    if json[scan] != LETTER_U {
      var escaped := Unescape(json[scan]);
      return if escaped != 0 then Take(2, [escaped]) else Bad;
    }
    scan := scan + 1;
    if scan + 4 > |json| {
      return Bad;
    }
    var hex := ReadHex4(json, scan);
    assert json[scan..scan + 4] == s[2..6];
    if hex.None? {
      return Bad;
    }
    var codepoint := hex.value;
    scan := scan + 4;
    if 0xD800 <= codepoint <= 0xDBFF {
      if scan + 2 > |json| || json[scan] != BACKSLASH || json[scan + 1] != LETTER_U {
        return Bad;
      }
      scan := scan + 2;
      if scan + 4 > |json| {
        return Bad;
      }
      var lowHex := ReadHex4(json, scan);
      assert json[scan..scan + 4] == s[8..12];
      if lowHex.None? || lowHex.value < 0xDC00 || lowHex.value > 0xDFFF {
        return Bad;
      }
      scan := scan + 4;
      codepoint := 0x10000 + (codepoint - 0xD800) * 1024 + (lowHex.value - 0xDC00);
    } else if 0xDC00 <= codepoint <= 0xDFFF {
      return Bad;
    }
    r := Take(scan - start, Utf8Encode(codepoint));
  }

  /** What a string token starting with a quote at position start reads as. */
  function StringAt(json: seq<byte>, start: nat): (r: Option<Scanned>)
    ensures r.Some? ==> start + 1 + r.value.size <= |json|
  {
    if start >= |json| || json[start] != QUOTE then None else Scan(json[start + 1..])
  }

  /** __parse_string: the text of the string token, and its length in the input without the first quote. */
  method ParseString(json: seq<byte>, start: nat) returns (r: Option<Scanned>)
    ensures r == StringAt(json, start)
  {
    hide ScanUnit;
    if start >= |json| || json[start] != QUOTE {
      return None;
    }
    var scan := start + 1;
    var str: seq<byte> := [];
    assert forall rest: seq<byte> :: str + rest == rest;
    while true
      invariant start + 1 <= scan <= |json|
      invariant match Scan(json[scan..])
                case None => StringAt(json, start).None?
                case Some(rest) => StringAt(json, start) == Some(Scanned(str + rest.text, scan - start - 1 + rest.size))
      decreases |json| - scan
    {
      assert str + [] == str;
      var unit := ReadUnit(json, scan);
      match unit
      case Bad => return None;
      case End => return Some(Scanned(str, scan - start));
      case Take(n, text) =>
        assert json[scan..][n..] == json[scan + n..];
        assert forall rest: seq<byte> :: str + (text + rest) == str + text + rest;
        str := str + text;
        scan := scan + n;
    }
  }

  /** One round of the scanning loop. */
  method ReadUnit(json: seq<byte>, scan: nat) returns (r: Unit)
    requires scan <= |json|
    ensures r == ScanUnit(json[scan..])
  {
    if scan >= |json| || json[scan] == 0 {
      return Bad;
    }
    if json[scan] == QUOTE {
      return End;
    }
    if json[scan] < 0x20 {
      return Bad;
    }
    if json[scan] == BACKSLASH {
      r := ReadEscape(json, scan);
      return;
    }
    var d := Utf8Decode(json[scan..]);
    if d.size == 0 {
      return Bad;
    }
    r := Take(d.size, json[scan..scan + d.size]);
  }

  // ----- the round trip

  lemma HexRoundTrip(c: nat)
    requires c <= 0xFFFF
    ensures Hex4(EscapeU(c)[2..6]) == Some(c)
  {
    HexDigits(c);
    HexOne(c / 4096);
    HexOne(c / 256 % 16);
    HexOne(c / 16 % 16);
    HexOne(c % 16);
    hide HexValue, HexDigit;
    assert EscapeU(c)[2..6] == [HexDigit(c / 4096), HexDigit(c / 256 % 16), HexDigit(c / 16 % 16), HexDigit(c % 16)];
  }

  lemma HexOne(n: nat)
    requires n < 16
    ensures HexValue(HexDigit(n)) == Some(n)
  {
  }

  lemma HexDigits(c: nat)
    ensures c / 4096 * 4096 + c / 256 % 16 * 256 + c / 16 % 16 * 16 + c % 16 == c
  {
    assert c / 4096 == c / 256 / 16 && c / 256 == c / 16 / 16;
  }

  lemma ScanEscapeU(c: nat, tail: seq<byte>)
    requires c <= 0xFFFF && !(0xD800 <= c <= 0xDFFF)
    ensures ScanUnit(EscapeU(c) + tail) == Take(6, Utf8Encode(c))
  {
    var s := EscapeU(c) + tail;
    assert s[2..6] == EscapeU(c)[2..6];
    HexRoundTrip(c);
  }

  lemma ScanSurrogates(c: nat, tail: seq<byte>)
    requires 0x10000 <= c <= 0x10FFFF
    ensures ScanUnit(EscapeCodepoint(c) + tail) == Take(12, Utf8Encode(c))
  {
    var hi, lo := 0xD800 + (c - 0x10000) / 1024, 0xDC00 + (c - 0x10000) % 1024;
    var s := EscapeCodepoint(c) + tail;
    assert s[2..6] == EscapeU(hi)[2..6];
    assert s[8..12] == EscapeU(lo)[2..6];
    assert s[6] == BACKSLASH && s[7] == LETTER_U;
    HexRoundTrip(hi);
    HexRoundTrip(lo);
  }

  lemma ScanEscapeCodepoint(c: nat, tail: seq<byte>)
    requires c <= 0x10FFFF && !(0xD800 <= c <= 0xDFFF)
    ensures ScanUnit(EscapeCodepoint(c) + tail) == Take(|EscapeCodepoint(c)|, Utf8Encode(c))
  {
    if c <= 0xFFFF {
      ScanEscapeU(c, tail);
    } else {
      ScanSurrogates(c, tail);
    }
  }

  /** The scanner reads back one escaped unit, whatever follows it. */
  lemma ScanEscapeUnit(s: seq<byte>, ascii: bool, tail: seq<byte>)
    requires s != []
    ensures ScanUnit(EscapeUnit(s, ascii) + tail) == Take(|EscapeUnit(s, ascii)|, UnitText(s))
  {
    var e := EscapeUnit(s, ascii);
    if ShortEscape(s[0]) != 0 {
      assert Unescape(ShortEscape(s[0])) == s[0];
      assert (e + tail)[0] == BACKSLASH && (e + tail)[1] == ShortEscape(s[0]);
    } else if s[0] < 0x20 {
      ScanEscapeU(s[0], tail);
    } else if s[0] < 0x80 {
      assert (e + tail)[0] == s[0] && (e + tail)[..1] == s[..1];
    } else if Utf8Decode(s).size == 0 {
      ScanEscapeCodepoint(REPLACEMENT, tail);
    } else if ascii {
      DecodeEncode(s);
      ScanEscapeCodepoint(Utf8Decode(s).codepoint, tail);
    } else {
      DecodePrefix(s, tail);
      assert (e + tail)[..|e|] == e;
      assert (e + tail)[0] == s[0];
    }
  }

  /** Every escaped string is accepted, and reads back as the cleaned source. */
  lemma {:induction false} ScanEscape(s: seq<byte>, ascii: bool, tail: seq<byte>)
    ensures Scan(Escape(s, ascii) + [QUOTE] + tail) == Some(Scanned(Clean(s), |Escape(s, ascii)| + 1))
    decreases |s|
  {
    if s == [] {
      assert ScanUnit([QUOTE] + tail) == End;
      assert Escape(s, ascii) + [QUOTE] + tail == [QUOTE] + tail;
    } else {
      hide ScanUnit, EscapeUnit, UnitText, UnitSize, Escape, Scan, Clean;
      var e, rest := EscapeUnit(s, ascii), s[UnitSize(s)..];
      var after := Escape(rest, ascii) + [QUOTE] + tail;
      EscapeFirst(s, ascii);
      Assoc4(e, Escape(rest, ascii), [QUOTE], tail);
      ScanEscapeUnit(s, ascii, after);
      DropPrefix(e, after);
      ScanEscape(rest, ascii, tail);
      ScanFirst(e + after);
    }
  }

  lemma EscapeFirst(s: seq<byte>, ascii: bool)
    requires s != []
    ensures Escape(s, ascii) == EscapeUnit(s, ascii) + Escape(s[UnitSize(s)..], ascii)
    ensures Clean(s) == UnitText(s) + Clean(s[UnitSize(s)..])
  {
  }

  lemma ScanFirst(s: seq<byte>)
    requires ScanUnit(s).Take? && Scan(s[ScanUnit(s).size..]).Some?
    ensures var r := Scan(s[ScanUnit(s).size..]).value;
            Scan(s) == Some(Scanned(ScanUnit(s).text + r.text, ScanUnit(s).size + r.size))
  {
    hide ScanUnit;
  }

  lemma {:induction false} CleanIsValid(s: seq<byte>)
    ensures ValidUtf8(Clean(s))
    decreases |s|
  {
    if s != [] {
      var t, rest := UnitText(s), Clean(s[UnitSize(s)..]);
      CleanIsValid(s[UnitSize(s)..]);
      if s[0] >= 0x80 && Utf8Decode(s).size == 0 {
        assert t == [0xEF, 0xBF, 0xBD];
        assert Utf8Decode(t + rest).size == 3;
      } else {
        DecodePrefix(s, rest);
        assert Utf8Decode(s).size == UnitSize(s);
      }
      assert (t + rest)[|t|..] == rest;
    }
  }

  /** Cleaning changes exactly the strings that are not valid UTF-8. */
  lemma {:induction false} CleanUnchanged(s: seq<byte>)
    ensures Clean(s) == s <==> ValidUtf8(s)
    decreases |s|
  {
    CleanIsValid(s);
    if ValidUtf8(s) {
      CleanOfValid(s);
    }
  }

  lemma {:induction false} CleanOfValid(s: seq<byte>)
    requires ValidUtf8(s)
    ensures Clean(s) == s
    decreases |s|
  {
    if s != [] {
      var n := Utf8Decode(s).size;
      assert UnitSize(s) == n && UnitText(s) == s[..n];
      hide Utf8Decode, UnitSize, UnitText;
      CleanOfValid(s[n..]);
      assert s == s[..n] + s[n..];
    }
  }

  /** Escaping and scanning give back exactly the valid UTF-8 strings, in either mode. */
  lemma StringRoundTrip(s: seq<byte>, ascii: bool, tail: seq<byte>)
    ensures Scan(Escape(s, ascii) + [QUOTE] + tail).Some?
    ensures Scan(Escape(s, ascii) + [QUOTE] + tail).value.text == s <==> ValidUtf8(s)
  {
    ScanEscape(s, ascii, tail);
    CleanUnchanged(s);
  }

  /** The lone byte 0xFF comes back as the replacement character. */
  lemma LoneByteReplaced(ascii: bool, tail: seq<byte>)
    ensures !ValidUtf8([0xFF])
    ensures Scan(Escape([0xFF], ascii) + [QUOTE] + tail).Some?
    ensures Scan(Escape([0xFF], ascii) + [QUOTE] + tail).value.text == [0xEF, 0xBF, 0xBD]
  {
    hide Scan, Escape, Clean, ValidUtf8;
    ScanEscape([0xFF], ascii, tail);
    LoneByte();
  }

  lemma LoneByte()
    ensures !ValidUtf8([0xFF]) && Clean([0xFF]) == [0xEF, 0xBF, 0xBD]
  {
    assert Utf8Decode([0xFF]).size == 0;
    assert [0xFF][1..] == [];
    assert Clean([]) == [];
  }
}
