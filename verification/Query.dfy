/** Query strings: percent coding (misc/helpers.c), the one-pass parser and the printer
    (misc/queryparser.c). */
module Query {
  import opened Ascii
  import opened Common
  import opened Sequences

  const PERCENT: byte := 37
  const PLUS: byte := 43
  const SPACE: byte := 32
  const HASH: byte := 35
  const AMP: byte := 38
  const EQUALS: byte := 61

  // ----- percent coding

  /** Letters, digits and the marks - _ . ~ stand for themselves. */
  predicate Unreserved(b: byte)
  {
    48 <= b <= 57 || 65 <= b <= 90 || 97 <= b <= 122 || b == 45 || b == 95 || b == 46 || b == 126
  }

  /** __byte_to_hex: upper-case hexadecimal digits. */
  function HexDigit(v: int): byte
    requires 0 <= v < 16
  {
    if v < 10 then 48 + v else 55 + v
  }

  /** __hex_char_to_int. */
  function HexValue(b: byte): (v: int)
    ensures -1 <= v < 16
  {
    if 48 <= b <= 57 then b - 48
    else if 97 <= b <= 102 then b - 87
    else if 65 <= b <= 70 then b - 55
    else -1
  }

  function EncodeByte(b: byte): seq<byte>
  {
    if Unreserved(b) then [b] else if b == SPACE then [PLUS] else [PERCENT, HexDigit(b / 16), HexDigit(b % 16)]
  }

  function Encode(s: seq<byte>): seq<byte>
  {
    if s == [] then [] else EncodeByte(s[0]) + Encode(s[1..])
  }

  /** A percent sign and two hexadecimal digits. */
  predicate IsEscape(s: seq<byte>)
  {
    |s| > 2 && s[0] == PERCENT && HexValue(s[1]) >= 0 && HexValue(s[2]) >= 0
  }

  function Decode(s: seq<byte>): seq<byte>
  {
    if s == [] then []
    else if IsEscape(s) then [HexValue(s[1]) * 16 + HexValue(s[2])] + Decode(s[3..])
    else [if s[0] == PLUS then SPACE else s[0]] + Decode(s[1..])
  }

  // ----- the coding, in characters

  lemma Marks()
    ensures PERCENT as char == '%' && PLUS as char == '+' && SPACE as char == ' '
    ensures HASH as char == '#' && AMP as char == '&' && EQUALS as char == '='
  {
  }

  /** Letters, digits and four marks stay, a space is a plus sign, and every other byte is a percent
      sign and its two hexadecimal digits in upper case. */
  lemma EncodedAs(b: byte)
    ensures var c := b as char;
            EncodeByte(b) ==
            if c in UPPER || c in LOWER || c in DIGITS || c in "-_.~" then [b]
            else if c == ' ' then ['+' as int]
            else ['%' as int, HEX_UPPER[b / 16] as int, HEX_UPPER[b % 16] as int]
  {
    var c := b as char;
    UpperIs(c);
    LowerIs(c);
    DigitIs(c);
    MarkIs(c);
    HexAt(b / 16);
    HexAt(b % 16);
  }

  lemma MarkIs(c: char)
    ensures c in "-_.~" <==> c == '-' || c == '_' || c == '.' || c == '~'
  {
  }

  lemma HexFits(b: byte, v: int)
    ensures HexIs(b, v) <==> v >= 0 && HexValue(b) == v
  {
    HexRange(b, v);
  }

  /** A percent sign and two hexadecimal digits of either case are one byte. */
  lemma DecodedAs(h: byte, l: byte, a: nat, b: nat, rest: seq<byte>)
    requires HexIs(h, a) && HexIs(l, b)
    ensures a < 16 && b < 16 && Decode(['%' as int, h, l] + rest) == [a * 16 + b] + Decode(rest)
  {
    hide HexIs, HexValue;
    HexFits(h, a);
    HexFits(l, b);
    var s := ['%' as int, h, l] + rest;
    assert s[0] == PERCENT && s[1] == h && s[2] == l && s[3..] == rest;
    hide Decode;
    EscapeDecodes(s);
  }

  /** Any other character is itself, a plus sign is a space. */
  lemma DecodedOther(b: byte, rest: seq<byte>)
    requires b as char != '%'
    ensures Decode([b] + rest) == [if b as char == '+' then ' ' as int else b] + Decode(rest)
  {
    assert ([b] + rest)[0] == b && ([b] + rest)[1..] == rest;
  }

  /** A percent sign without two such digits stays. */
  lemma DecodedBroken(rest: seq<byte>)
    requires |rest| < 2 || forall a: nat, b: nat :: !(HexIs(rest[0], a) && HexIs(rest[1], b))
    ensures Decode(['%' as int] + rest) == ['%' as int] + Decode(rest)
  {
    hide HexIs, HexValue;
    var s := ['%' as int] + rest;
    assert s[0] == PERCENT && s[1..] == rest;
    if |rest| >= 2 {
      assert s[1] == rest[0] && s[2] == rest[1];
      var a, b := HexValue(rest[0]), HexValue(rest[1]);
      HexFits(rest[0], a);
      HexFits(rest[1], b);
      assert a < 0 || b < 0;
    }
  }

  lemma HexBack(v: int)
    requires 0 <= v < 16
    ensures HexValue(HexDigit(v)) == v
  {
  }

  lemma DecodeByte(b: byte, rest: seq<byte>)
    ensures Decode(EncodeByte(b) + rest) == [b] + Decode(rest)
  {
    var e := EncodeByte(b);
    var s := e + rest;
    DropPrefix(e, rest);
    if |e| == 3 {
      HexBack(b / 16);
      HexBack(b % 16);
      hide HexValue, HexDigit, Decode;
      assert s[0] == PERCENT && s[1] == HexDigit(b / 16) && s[2] == HexDigit(b % 16);
      EscapeDecodes(s);
    } else {
      assert s[0] == e[0] != PERCENT;
    }
  }

  lemma EscapeDecodes(s: seq<byte>)
    requires IsEscape(s)
    ensures Decode(s) == [HexValue(s[1]) * 16 + HexValue(s[2])] + Decode(s[3..])
  {
  }

  /** Decoding undoes encoding, for every byte string. */
  lemma {:induction false} DecodeEncode(s: seq<byte>)
    ensures Decode(Encode(s)) == s
  {
    if s != [] {
      DecodeByte(s[0], Encode(s[1..]));
      DecodeEncode(s[1..]);
    }
  }

  lemma {:induction false} EncodeMore(a: seq<byte>, b: seq<byte>)
    ensures Encode(a + b) == Encode(a) + Encode(b)
  {
    if a == [] {
      assert a + b == b;
    } else {
      assert (a + b)[1..] == a[1..] + b;
      EncodeMore(a[1..], b);
      Assoc(EncodeByte(a[0]), Encode(a[1..]), Encode(b));
    }
  }

  /** urlencodel. */
  method UrlEncode(s: seq<byte>) returns (out: seq<byte>)
    ensures out == Encode(s)
  {
    out := [];
    for i := 0 to |s|
      invariant out == Encode(s[..i])
    {
      assert s[..i + 1] == s[..i] + [s[i]];
      EncodeMore(s[..i], [s[i]]);
      EncodeOne(s[i]);
      var b := s[i];
      if Unreserved(b) {
        out := out + [b];
      } else if b == SPACE {
        out := out + [PLUS];
      } else {
        out := out + [PERCENT, HexDigit(b / 16), HexDigit(b % 16)];
      }
    }
    assert s[..|s|] == s;
  }

  lemma EncodeOne(b: byte)
    ensures Encode([b]) == EncodeByte(b)
  {
    assert [b][1..] == [];
    assert Encode([b]) == EncodeByte(b) + [];
  }

  /** urldecodel. */
  method UrlDecode(s: seq<byte>) returns (out: seq<byte>)
    ensures out == Decode(s)
  {
    hide HexValue, Decode;
    out := [];
    var i := 0;
    assert s[0..] == s;
    while i < |s|
      invariant i <= |s| && Decode(s) == out + Decode(s[i..])
    {
      DecodeStep(s, i, out);
      var ch := s[i];
      if ch == PERCENT {
        if i + 2 < |s| {
          var hi, lo := HexValue(s[i + 1]), HexValue(s[i + 2]);
          if hi >= 0 && lo >= 0 {
            out := out + [hi * 16 + lo];
            i := i + 2;
          } else {
            out := out + [PERCENT];
          }
        } else {
          out := out + [PERCENT];
        }
      } else if ch == PLUS {
        out := out + [SPACE];
      } else {
        out := out + [ch];
      }
      i := i + 1;
    }
    assert s[|s|..] == [];
    DecodeNothing();
  }

  lemma DecodeNothing()
    ensures Decode([]) == []
  {
  }

  lemma DecodeStep(s: seq<byte>, i: nat, out: seq<byte>)
    requires i < |s|
    ensures out + Decode(s[i..]) ==
            if i + 2 < |s| && s[i] == PERCENT && HexValue(s[i + 1]) >= 0 && HexValue(s[i + 2]) >= 0
            then (out + [HexValue(s[i + 1]) * 16 + HexValue(s[i + 2])]) + Decode(s[i + 3..])
            else (out + [if s[i] == PLUS then SPACE else s[i]]) + Decode(s[i + 1..])
  {
    hide HexValue;
    var t := s[i..];
    assert t[0] == s[i] && t[1..] == s[i + 1..];
    if i + 2 < |s| {
      assert t[1] == s[i + 1] && t[2] == s[i + 2] && t[3..] == s[i + 3..];
    }
  }

  // ----- the parser

  datatype Pair = Pair(key: seq<byte>, value: seq<byte>)

  function IndexOf(s: seq<byte>, b: byte): (i: nat)
    ensures i <= |s| && b !in s[..i] && (i < |s| ==> s[i] == b)
  {
    if s == [] || s[0] == b then 0
    else
      var i := 1 + IndexOf(s[1..], b);
      assert s[..i] == [s[0]] + s[1..][..i - 1];
      i
  }

  lemma {:induction false} IndexIs(s: seq<byte>, b: byte, i: nat)
    requires i <= |s| && b !in s[..i] && (i < |s| ==> s[i] == b)
    ensures IndexOf(s, b) == i
  {
    if i > 0 {
      assert s[..i] == [s[0]] + s[1..][..i - 1];
      IndexIs(s[1..], b, i - 1);
    }
  }

  /** A string as C sees it: up to its first zero byte. */
  function CString(s: seq<byte>): seq<byte>
  {
    s[..IndexOf(s, 0)]
  }

  /** The reference: cut off the fragment, ... */
  function Cut(s: seq<byte>): seq<byte>
  {
    s[..IndexOf(s, HASH)]
  }

  /** ... split at each ampersand, ... */
  function Split(s: seq<byte>): seq<seq<byte>>
    decreases |s|
  {
    var i := IndexOf(s, AMP);
    if i == |s| then [s] else [s[..i]] + Split(s[i + 1..])
  }

  /** ... and split each piece at its first equals sign; a piece without one has an empty value. */
  function PairOf(piece: seq<byte>): Pair
  {
    var i := IndexOf(piece, EQUALS);
    Pair(CString(Decode(piece[..i])), CString(Decode(if i < |piece| then piece[i + 1..] else [])))
  }

  function Pairs(pieces: seq<seq<byte>>): seq<Pair>
  {
    if pieces == [] then [] else [PairOf(pieces[0])] + Pairs(pieces[1..])
  }

  function Parsed(s: seq<byte>): seq<Pair>
  {
    Pairs(Split(Cut(s)))
  }

  lemma PairsOne(piece: seq<byte>)
    ensures Pairs([piece]) == [PairOf(piece)]
  {
    assert [piece][1..] == [];
  }

  lemma PairsFirst(piece: seq<byte>, pieces: seq<seq<byte>>)
    ensures Pairs([piece] + pieces) == [PairOf(piece)] + Pairs(pieces)
  {
    assert ([piece] + pieces)[1..] == pieces;
  }

  lemma SplitAt(s: seq<byte>, k: nat)
    requires k <= |s| && AMP !in s[..k] && (k < |s| ==> s[k] == AMP)
    ensures Split(s) == if k == |s| then [s] else [s[..k]] + Split(s[k + 1..])
  {
    IndexIs(s, AMP, k);
  }

  /** The piece before the first ampersand, when no fragment starts before it. */
  lemma ParsedAmp(s: seq<byte>, k: nat)
    requires k < |s| && s[k] == AMP && AMP !in s[..k] && HASH !in s[..k]
    ensures Parsed(s) == [PairOf(s[..k])] + Parsed(s[k + 1..])
  {
    var rest := s[k + 1..];
    var h := IndexOf(rest, HASH);
    assert s[..k + 1 + h] == s[..k] + [AMP] + rest[..h];
    IndexIs(s, HASH, k + 1 + h);
    var c := Cut(s);
    assert c == s[..k] + [AMP] + Cut(rest);
    assert c[..k] == s[..k] && c[k + 1..] == Cut(rest);
    SplitAt(c, k);
    PairsFirst(s[..k], Split(Cut(rest)));
  }

  /** The last piece: up to the fragment or the end. */
  lemma ParsedLast(s: seq<byte>, k: nat)
    requires k <= |s| && (k < |s| ==> s[k] == HASH) && AMP !in s[..k] && HASH !in s[..k]
    ensures Parsed(s) == [PairOf(s[..k])]
  {
    IndexIs(s, HASH, k);
    assert s[..k][..k] == s[..k];
    SplitAt(s[..k], k);
    PairsOne(s[..k]);
  }

  /** __finish_pair. */
  method FinishPair(s: seq<byte>, keyStart: nat, keyEnd: nat, hasValue: bool, valueStart: nat, valueEnd: nat) returns (p: Pair)
    requires keyStart <= keyEnd <= valueEnd <= |s| && EQUALS !in s[keyStart..keyEnd]
    requires if hasValue then keyEnd < valueEnd && s[keyEnd] == EQUALS && valueStart == keyEnd + 1 else keyEnd == valueEnd
    ensures p == PairOf(s[keyStart..valueEnd])
  {
    hide Decode;
    var piece := s[keyStart..valueEnd];
    assert piece[..keyEnd - keyStart] == s[keyStart..keyEnd];
    IndexIs(piece, EQUALS, keyEnd - keyStart);
    var key := UrlDecode(s[keyStart..keyEnd]);
    var value;
    if hasValue {
      value := UrlDecode(s[valueStart..valueEnd]);
      assert piece[keyEnd - keyStart + 1..] == s[valueStart..valueEnd];
    } else {
      value := UrlDecode([]);
    }
    p := Pair(CString(key), CString(value));
  }

  /** queryparser_parse. */
  method Parse(s: seq<byte>, start: nat) returns (queries: seq<Pair>)
    requires start <= |s|
    ensures queries == Parsed(s[start..])
  {
    hide Parsed, PairOf;
    queries := [];
    var keyStart, keyEnd, hasValue, valueStart := start, start, false, 0;
    for pos := start to |s|
      invariant start <= keyStart <= pos
      invariant AMP !in s[keyStart..pos] && HASH !in s[keyStart..pos]
      invariant if hasValue then keyStart <= keyEnd < pos && s[keyEnd] == EQUALS && valueStart == keyEnd + 1 && EQUALS !in s[keyStart..keyEnd]
                else EQUALS !in s[keyStart..pos]
      invariant Parsed(s[start..]) == queries + Parsed(s[keyStart..])
    {
      ghost var t := s[keyStart..];
      assert t[..pos - keyStart] == s[keyStart..pos] && t[pos - keyStart] == s[pos];
      assert s[keyStart..pos + 1] == s[keyStart..pos] + [s[pos]];
      if s[pos] == EQUALS {
        if !hasValue {
          keyEnd, hasValue, valueStart := pos, true, pos + 1;
        }
      } else if s[pos] == AMP {
        if !hasValue {
          keyEnd := pos;
        }
        ParsedAmp(t, pos - keyStart);
        assert t[pos - keyStart + 1..] == s[pos + 1..];
        var p := FinishPair(s, keyStart, keyEnd, hasValue, valueStart, pos);
        Assoc(queries, [p], Parsed(s[pos + 1..]));
        queries := queries + [p];
        keyStart, keyEnd, hasValue := pos + 1, pos + 1, false;
      } else if s[pos] == HASH {
        if !hasValue {
          keyEnd := pos;
        }
        ParsedLast(t, pos - keyStart);
        var p := FinishPair(s, keyStart, keyEnd, hasValue, valueStart, pos);
        queries := queries + [p];
        return;
      }
    }
    if !hasValue {
      keyEnd := |s|;
    }
    ghost var t := s[keyStart..];
    assert t[..|s| - keyStart] == t == s[keyStart..|s|];
    ParsedLast(t, |s| - keyStart);
    var p := FinishPair(s, keyStart, keyEnd, hasValue, valueStart, |s|);
    queries := queries + [p];
  }

  // ----- the printer

  function PrintedPair(p: Pair): seq<byte>
  {
    Encode(p.key) + [EQUALS] + Encode(p.value)
  }

  function Printed(list: seq<Pair>): seq<byte>
    requires list != []
  {
    if |list| == 1 then PrintedPair(list[0]) else PrintedPair(list[0]) + [AMP] + Printed(list[1..])
  }

  /** query_stringify on a list with at least one pair. */
  method Stringify(list: seq<Pair>) returns (uri: seq<byte>)
    requires list != []
    ensures uri == Printed(list)
  {
    hide Encode;
    uri := [];
    assert list[0..] == list && [] + Printed(list) == Printed(list);
    for i := 0 to |list|
      invariant if i < |list| then Printed(list) == uri + Printed(list[i..]) else uri == Printed(list)
    {
      assert list[i..][0] == list[i] && list[i..][1..] == list[i + 1..];
      var key := UrlEncode(list[i].key);
      var value := UrlEncode(list[i].value);
      ghost var before, pair := uri, PrintedPair(list[i]);
      uri := uri + key;
      uri := uri + [EQUALS];
      uri := uri + value;
      Append3(before, key, [EQUALS], value);
      if i + 1 < |list| {
        uri := uri + [AMP];
        Append3(before, pair, [AMP], Printed(list[i + 1..]));
      }
    }
  }

  lemma Append3(a: seq<byte>, b: seq<byte>, c: seq<byte>, d: seq<byte>)
    ensures a + b + c + d == a + (b + c + d)
  {
  }

  /** No separator occurs in an encoding. */
  lemma {:induction false} EncodeClean(s: seq<byte>)
    ensures HASH !in Encode(s) && AMP !in Encode(s) && EQUALS !in Encode(s)
  {
    if s != [] {
      EncodeClean(s[1..]);
    }
  }

  ghost predicate NulFree(list: seq<Pair>)
  {
    forall i :: 0 <= i < |list| ==> 0 !in list[i].key && 0 !in list[i].value
  }

  lemma CStringSame(s: seq<byte>)
    requires 0 !in s
    ensures CString(s) == s
  {
    assert s[..|s|] == s;
    IndexIs(s, 0, |s|);
  }

  lemma PairBack(p: Pair)
    requires 0 !in p.key && 0 !in p.value
    ensures PairOf(PrintedPair(p)) == p && HASH !in PrintedPair(p) && AMP !in PrintedPair(p)
  {
    hide Encode, Decode, CString;
    var k, v := Encode(p.key), Encode(p.value);
    EncodeClean(p.key);
    EncodeClean(p.value);
    DecodeEncode(p.key);
    DecodeEncode(p.value);
    CStringSame(p.key);
    CStringSame(p.value);
    SplitEquals(k, v);
    hide IndexOf;
  }

  lemma SplitEquals(k: seq<byte>, v: seq<byte>)
    requires EQUALS !in k
    ensures var t := k + [EQUALS] + v; IndexOf(t, EQUALS) == |k| && t[..|k|] == k && t[|k| + 1..] == v
  {
    Assoc(k, [EQUALS], v);
    DropPrefix(k, [EQUALS] + v);
    DropPrefix(k + [EQUALS], v);
    IndexIs(k + [EQUALS] + v, EQUALS, |k|);
  }

  /** Parsing the printed form of a list gives the list back. */
  lemma {:induction false} ParsePrinted(list: seq<Pair>)
    requires list != [] && NulFree(list)
    ensures Parsed(Printed(list)) == list
    decreases |list|
  {
    hide Parsed, PairOf, PrintedPair;
    var one, t := PrintedPair(list[0]), Printed(list);
    PairBack(list[0]);
    if |list| == 1 {
      assert t[..|t|] == t;
      ParsedLast(t, |t|);
    } else {
      ParsePrinted(list[1..]);
      assert t[..|one|] == one && t[|one|] == AMP && t[|one| + 1..] == Printed(list[1..]);
      ParsedAmp(t, |one|);
      assert list == [list[0]] + list[1..];
    }
  }
}
