/** The string scanner against section 7 of RFC 8259: it accepts exactly the strings of that grammar,
    whichever way their characters are written, and gives their text in UTF-8. */
module JsonStringText {
  import opened Ascii
  import opened Common
  import opened Sequences
  import opened JsonString
  import opened JsonUtf8
  import opened JsonGrammar

  // ----- one character

  lemma HexFits(b: byte, v: nat)
    ensures HexIs(b, v) <==> HexValue(b) == Some(v)
  {
    HexRange(b, v);
  }

  lemma HexForIs(s: seq<byte>, n: nat)
    requires |s| == 4
    ensures HexFor(s, n) <==> Hex4(s) == Some(n)
  {
    hide HexIs, HexValue;
    if HexFor(s, n) {
      var a: nat, b: nat, c: nat, d: nat :|
        HexIs(s[0], a) && HexIs(s[1], b) && HexIs(s[2], c) && HexIs(s[3], d) && n == ((a * 16 + b) * 16 + c) * 16 + d;
      HexFits(s[0], a);
      HexFits(s[1], b);
      HexFits(s[2], c);
      HexFits(s[3], d);
    }
    if Hex4(s) == Some(n) {
      var a, b, c, d := HexValue(s[0]).value, HexValue(s[1]).value, HexValue(s[2]).value, HexValue(s[3]).value;
      HexFits(s[0], a);
      HexFits(s[1], b);
      HexFits(s[2], c);
      HexFits(s[3], d);
      assert n == ((a * 16 + b) * 16 + c) * 16 + d;
    }
  }

  lemma ShortForIs(s: seq<byte>, c: nat)
    requires |s| == 2 && s[0] == BACKSLASH
    ensures ShortFor(s, c) <==> Unescape(s[1]) == c && c != 0
  {
    assert |SHORT| == 8;
    if Unescape(s[1]) == c && c != 0 {
      var k := if c == 0x22 then 0 else if c == 0x5C then 1 else if c == 0x2F then 2 else if c == 0x08 then 3
               else if c == 0x0C then 4 else if c == 0x0A then 5 else if c == 0x0D then 6 else 7;
      assert s[1] == SHORT[k] as int && c == SHORT_FOR[k];
    }
  }

  lemma UForIs(s: seq<byte>, tail: seq<byte>, n: nat)
    requires UFor(s, n)
    ensures (s + tail)[0] == BACKSLASH && (s + tail)[1] == LETTER_U && |s + tail| >= 6 && Hex4((s + tail)[2..6]) == Some(n)
  {
    hide HexFor, Hex4;
    assert (s + tail)[2..6] == s[2..];
    HexForIs(s[2..], n);
  }

  /** However a character is written, the scanner takes it whole and gives its UTF-8 form. */
  lemma UnitSpelled(s: seq<byte>, c: nat, tail: seq<byte>)
    requires Spells(s, c)
    ensures s != [] && ScanUnit(s + tail) == Take(|s|, Utf8Encode(c))
  {
    hide Spells, Utf8Decode, Utf8Encode, Hex4, HexFor, Unescape, ShortFor, UFor, PairFor, Utf8Of, ScanUnit;
    SpellsOne(s, c);
    if Unescaped(c) && Utf8Of(c, s) {
      RawScans(s, c, tail);
    } else if ShortFor(s, c) {
      ShortScans(s, c, tail);
    } else if UFor(s, c) {
      UScans(s, c, tail);
    } else {
      PairScans(s, c, tail);
    }
  }

  lemma SpellsOne(s: seq<byte>, c: nat)
    requires Spells(s, c)
    ensures Scalar(c) && ((Unescaped(c) && Utf8Of(c, s)) || ShortFor(s, c) || UFor(s, c) || PairFor(s, c))
  {
  }

  lemma RawScans(s: seq<byte>, c: nat, tail: seq<byte>)
    requires Scalar(c) && Unescaped(c) && Utf8Of(c, s)
    ensures s != [] && ScanUnit(s + tail) == Take(|s|, Utf8Encode(c))
  {
    Utf8OfIs(c, s);
    EncodeDecode(c, tail);
    FirstOctet(c);
    hide Utf8Decode, Utf8Encode, Utf8Of;
    DropPrefix(s, tail);
    assert (s + tail)[0] == s[0];
  }

  lemma FirstOctet(c: nat)
    requires Scalar(c) && Unescaped(c)
    ensures var b := Utf8Encode(c)[0]; b >= 0x20 && b != QUOTE && b != BACKSLASH
  {
  }

  lemma ShortScans(s: seq<byte>, c: nat, tail: seq<byte>)
    requires Scalar(c) && ShortFor(s, c)
    ensures s != [] && ScanUnit(s + tail) == Take(|s|, Utf8Encode(c))
  {
    ShortForIs(s, c);
    assert s[1] != LETTER_U && s[1] != 0 && c < 0x80;
    assert (s + tail)[0] == s[0] && (s + tail)[1] == s[1];
  }

  lemma UScans(s: seq<byte>, c: nat, tail: seq<byte>)
    requires Scalar(c) && UFor(s, c)
    ensures s != [] && ScanUnit(s + tail) == Take(|s|, Utf8Encode(c))
  {
    UForIs(s, tail, c);
    hide Hex4, Utf8Decode, Utf8Encode;
  }

  lemma PairScans(s: seq<byte>, c: nat, tail: seq<byte>)
    requires Scalar(c) && PairFor(s, c)
    ensures s != [] && ScanUnit(s + tail) == Take(|s|, Utf8Encode(c))
  {
    hide UFor, Hex4, Utf8Decode, Utf8Encode;
    var hi: nat, lo: nat :|
      && UFor(s[..6], hi) && UFor(s[6..], lo) && 0xD800 <= hi <= 0xDBFF && 0xDC00 <= lo <= 0xDFFF
      && c == 0x10000 + (hi - 0xD800) * 0x400 + (lo - 0xDC00);
    var t := s + tail;
    UForIs(s[..6], s[6..] + tail, hi);
    assert s[..6] + (s[6..] + tail) == t;
    UForIs(s[6..], tail, lo);
    assert (s[6..] + tail)[0] == t[6] && (s[6..] + tail)[1] == t[7] && (s[6..] + tail)[2..6] == t[8..12];
  }

  // ----- whole strings

  lemma SpelledFirst(ls: seq<Letter>)
    requires ls != [] && Spelled(ls)
    ensures Spells(ls[0].written, ls[0].scalar) && Spelled(ls[1..])
    ensures Spelling(ls) == ls[0].written + Spelling(ls[1..])
    ensures TextOf(ls) == Utf8Encode(ls[0].scalar) + TextOf(ls[1..])
  {
    hide Spells, Utf8Encode;
  }

  /** Every string of the grammar is accepted and gives its text. */
  lemma {:induction false} ScanSpelled(ls: seq<Letter>, tail: seq<byte>)
    requires Spelled(ls)
    ensures Scan(Spelling(ls) + [QUOTE] + tail) == Some(Scanned(TextOf(ls), |Spelling(ls)| + 1))
    decreases |ls|
  {
    hide ScanUnit, Scan, Spells, Spelled, Spelling, TextOf, Utf8Encode;
    if ls == [] {
      ScanEmpty(tail);
    } else {
      SpelledFirst(ls);
      var w, rest := ls[0].written, ls[1..];
      var after := Spelling(rest) + [QUOTE] + tail;
      Assoc4(w, Spelling(rest), [QUOTE], tail);
      UnitSpelled(w, ls[0].scalar, after);
      DropPrefix(w, after);
      ScanSpelled(rest, tail);
      ScanFirst(w + after);
    }
  }

  lemma ScanEmpty(tail: seq<byte>)
    ensures Spelled([]) && Spelling([]) == [] && TextOf([]) == []
    ensures Scan(Spelling([]) + [QUOTE] + tail) == Some(Scanned([], 1))
  {
    assert Spelling([]) + [QUOTE] + tail == [QUOTE] + tail;
    assert ScanUnit([QUOTE] + tail) == End;
  }

  // ----- and nothing else is

  /** What the scanner takes as one character is written in one of the ways the grammar has. */
  lemma UnitOnly(s: seq<byte>) returns (c: nat)
    requires ScanUnit(s).Take?
    ensures var n := ScanUnit(s).size; Spells(s[..n], c) && ScanUnit(s).text == Utf8Encode(c)
  {
    var u := ScanUnit(s);
    if s[0] != BACKSLASH {
      c := RawOnly(s);
    } else if s[1] != LETTER_U {
      c := Unescape(s[1]);
      assert s[..2][0] == s[0] && s[..2][1] == s[1];
      ShortForIs(s[..2], c);
    } else {
      c := UOnly(s);
    }
  }

  lemma RawOnly(s: seq<byte>) returns (c: nat)
    requires ScanUnit(s).Take? && s[0] != BACKSLASH
    ensures var n := ScanUnit(s).size; Spells(s[..n], c) && ScanUnit(s).text == Utf8Encode(c)
  {
    var r := Utf8Decode(s);
    c := r.codepoint;
    DecodeEncode(s);
    Utf8OfIs(c, s[..r.size]);
    assert r.size == 1 ==> c == s[0];
    assert r.size > 1 ==> c >= 0x80;
    hide Utf8Decode, Utf8Encode, Utf8Of;
  }

  lemma UOnly(s: seq<byte>) returns (c: nat)
    requires ScanUnit(s).Take? && s[0] == BACKSLASH && s[1] == LETTER_U
    ensures var n := ScanUnit(s).size; Spells(s[..n], c) && ScanUnit(s).text == Utf8Encode(c)
  {
    hide Hex4, Utf8Decode, Utf8Encode, HexFor;
    var hi := Hex4(s[2..6]).value;
    assert UFor(s[..6], hi) by {
      HexForIs(s[2..6], hi);
      assert s[..6][2..] == s[2..6];
    }
    if ScanUnit(s).size == 6 {
      c := hi;
    } else {
      var lo := Hex4(s[8..12]).value;
      c := 0x10000 + (hi - 0xD800) * 0x400 + (lo - 0xDC00);
      var t := s[..12];
      assert UFor(t[6..], lo) by {
        HexForIs(s[8..12], lo);
        assert t[6..][2..] == s[8..12];
      }
      assert t[..6] == s[..6];
      assert PairFor(t, c);
    }
  }

  /** Conversely, what the scanner accepts is a string of the grammar up to its closing quote, and
      the text it gives is the one the grammar gives. */
  lemma {:induction false} ScanOnly(s: seq<byte>) returns (ls: seq<Letter>)
    requires Scan(s).Some?
    ensures var r := Scan(s).value;
            Spelled(ls) && s[..r.size] == Spelling(ls) + Bytes("\"") && r.text == TextOf(ls)
    decreases |s|
  {
    hide ScanUnit, Spells, Utf8Encode, Scan, Spelling, TextOf, Spelled;
    ScanParts(s);
    var u := ScanUnit(s);
    if u.End? {
      ls := [];
      EndQuote(s);
      ScanEmpty([]);
    } else {
      var c := UnitOnly(s);
      var rest := ScanOnly(s[u.size..]);
      var r := Scan(s[u.size..]).value;
      ls := [Letter(s[..u.size], c)] + rest;
      SpelledMore(Letter(s[..u.size], c), rest);
      assert s[..u.size + r.size] == s[..u.size] + s[u.size..][..r.size];
      Assoc(s[..u.size], Spelling(rest), Bytes("\""));
    }
  }

  lemma ScanParts(s: seq<byte>)
    requires Scan(s).Some?
    ensures var u := ScanUnit(s);
            if u.End? then Scan(s).value == Scanned([], 1)
            else u.Take? && Scan(s[u.size..]).Some?
                 && var r := Scan(s[u.size..]).value; Scan(s).value == Scanned(u.text + r.text, u.size + r.size)
  {
    hide ScanUnit;
  }

  lemma SpelledMore(l: Letter, ls: seq<Letter>)
    requires Spells(l.written, l.scalar) && Spelled(ls)
    ensures Spelled([l] + ls) && Spelling([l] + ls) == l.written + Spelling(ls)
    ensures TextOf([l] + ls) == Utf8Encode(l.scalar) + TextOf(ls)
  {
    hide Spells, Utf8Encode;
    assert ([l] + ls)[1..] == ls;
  }

  lemma EndQuote(s: seq<byte>)
    requires ScanUnit(s).End?
    ensures s != [] && s[..1] == Bytes("\"")
  {
    assert Bytes("\"")[0] == 0x22;
  }

  /** A string token is accepted exactly when a string of the grammar stands there. */
  lemma StringTokens(json: seq<byte>, start: nat)
    ensures StringAt(json, start).Some? <==>
            exists ls, tail :: start <= |json| && Spelled(ls) && json[start..] == StringChars(ls) + tail
    ensures forall ls, tail :: start <= |json| && Spelled(ls) && json[start..] == StringChars(ls) + tail ==>
              StringAt(json, start) == Some(Scanned(TextOf(ls), |Spelling(ls)| + 1))
  {
    hide Scan, Spelled, Spelling, TextOf;
    forall ls, tail | start <= |json| && Spelled(ls) && json[start..] == StringChars(ls) + tail
      ensures StringAt(json, start) == Some(Scanned(TextOf(ls), |Spelling(ls)| + 1))
    {
      TokenReads(json, start, ls, tail);
    }
    if StringAt(json, start).Some? {
      var s := json[start + 1..];
      var ls := ScanOnly(s);
      var r := Scan(s).value;
      var tail := s[r.size..];
      assert json[start..] == [QUOTE] + s && s == s[..r.size] + tail;
      QuoteBytes();
      assert json[start..] == StringChars(ls) + tail;
    }
  }

  lemma QuoteBytes()
    ensures Bytes("\"") == [QUOTE]
  {
  }

  lemma TokenReads(json: seq<byte>, start: nat, ls: seq<Letter>, tail: seq<byte>)
    requires start <= |json| && Spelled(ls) && json[start..] == StringChars(ls) + tail
    ensures start < |json| && json[start] == QUOTE
    ensures StringAt(json, start) == Some(Scanned(TextOf(ls), |Spelling(ls)| + 1))
  {
    hide Scan, Spelled, Spelling, TextOf;
    QuoteBytes();
    var s := Spelling(ls);
    assert json[start] == json[start..][0] == StringChars(ls)[0] == QUOTE;
    assert json[start + 1..] == json[start..][1..] == s + [QUOTE] + tail;
    ScanSpelled(ls, tail);
  }

  // ----- how the printer writes characters

  /** "\uXXXX" with lower-case digits. */
  lemma EscapeUIs(c: nat)
    requires c <= 0xFFFF
    ensures EscapeU(c) == ['\\' as int, 'u' as int, HEX_LOWER[c / 4096] as int, HEX_LOWER[c / 256 % 16] as int,
                           HEX_LOWER[c / 16 % 16] as int, HEX_LOWER[c % 16] as int]
  {
    HexAt(c / 4096);
    HexAt(c / 256 % 16);
    HexAt(c / 16 % 16);
    HexAt(c % 16);
  }

  /** Quotation mark, backslash and five control characters have a letter of their own; the other
      control characters are written in hexadecimal, and the rest of ASCII as it is. */
  lemma EscapedAscii(b: byte, rest: seq<byte>, ascii: bool)
    requires b < 0x80
    ensures var short := if b == 0x22 then '"' else if b == 0x5C then '\\' else if b == 0x08 then 'b' else if b == 0x0C then 'f'
                         else if b == 0x0A then 'n' else if b == 0x0D then 'r' else if b == 0x09 then 't' else '\0';
            Escape([b] + rest, ascii)
            == (if short != '\0' then ['\\' as int, short as int] else if b < 0x20 then EscapeU(b) else [b]) + Escape(rest, ascii)
  {
    hide EscapeU;
    var s := [b] + rest;
    assert s[0] == b && s[1..] == rest;
    EscapeFirst(s, ascii);
  }

  /** Beyond ASCII a character is written as it is, or in hexadecimal, as asked for. */
  lemma EscapedBeyond(c: nat, rest: seq<byte>, ascii: bool)
    requires Scalar(c) && c >= 0x80
    ensures Escape(Utf8Encode(c) + rest, ascii)
         == (if !ascii then Utf8Encode(c)
             else if c <= 0xFFFF then EscapeU(c)
             else EscapeU(0xD800 + (c - 0x10000) / 0x400) + EscapeU(0xDC00 + (c - 0x10000) % 0x400)) + Escape(rest, ascii)
  {
    var e := Utf8Encode(c);
    var s := e + rest;
    EncodeDecode(c, rest);
    BeyondFirst(c);
    hide Utf8Encode, Utf8Decode, EscapeU, Escape;
    DropPrefix(e, rest);
    assert s[0] == e[0];
    NoShort(s[0]);
    EscapeFirst(s, ascii);
  }

  lemma BeyondFirst(c: nat)
    requires Scalar(c) && c >= 0x80
    ensures Utf8Encode(c)[0] >= 0x80
  {
  }

  lemma NoShort(b: byte)
    requires b >= 0x80
    ensures ShortEscape(b) == 0
  {
  }

  /** In ASCII mode nothing beyond ASCII is written, for any bytes. */
  lemma {:induction false} AsciiOnly(s: seq<byte>)
    ensures forall i :: 0 <= i < |Escape(s, true)| ==> Escape(s, true)[i] < 0x80
    decreases |s|
  {
    if s != [] {
      AsciiUnit(s);
      hide EscapeUnit, UnitSize;
      AsciiOnly(s[UnitSize(s)..]);
    }
  }

  lemma AsciiUnit(s: seq<byte>)
    requires s != []
    ensures forall i :: 0 <= i < |EscapeUnit(s, true)| ==> EscapeUnit(s, true)[i] < 0x80
  {
    if s[0] >= 0x80 && Utf8Decode(s).size > 0 {
      DecodeEncode(s);
    }
    hide Utf8Decode;
  }
}
