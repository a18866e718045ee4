/** Printing and parsing: what the printer prints is a JSON text of the document, and so the parser
    rebuilds the document, with the same kinds, texts, order, sizes and links. */
module JsonRoundTrip {
  import opened Ascii
  import opened Common
  import Decimals
  import opened Sequences
  import opened JsonString
  import JsonUtf8
  import opened JsonTree
  import opened JsonPrinter
  import opened JsonParser
  import opened JsonGrammar
  import JsonStringText
  import opened JsonReading

  // ----- what is printed is a JSON text

  function CleanScalar(v: Scalar): Scalar
  {
    if v.Str? then Str(Clean(v.text)) else v
  }

  /** The document with malformed UTF-8 replaced in its texts, and without addresses. */
  ghost function Cleaned(d: Doc): Doc
  {
    match d
    case Leaf(_, v) => Leaf(NULL, CleanScalar(v))
    case Arr(_, items) => Arr(NULL, CleanedItems(items))
    case Obj(_, members) => Obj(NULL, CleanedMembers(members))
  }

  ghost function CleanedItems(items: Docs): Docs
  {
    if items.Nil? then Nil else Cons(Cleaned(items.hd), CleanedItems(items.tl))
  }

  ghost function CleanedMembers(members: Members): Members
  {
    if members.MNil? then MNil
    else MCons(NULL, Clean(members.key), Cleaned(members.val), CleanedMembers(members.tl))
  }

  lemma ShortSpells(b: byte)
    requires ShortEscape(b) != 0
    ensures ShortFor([BACKSLASH, ShortEscape(b)], b)
  {
    JsonStringText.ShortForIs([BACKSLASH, ShortEscape(b)], b);
  }

  lemma EscapeUFor(c: nat)
    requires c <= 0xFFFF
    ensures UFor(EscapeU(c), c)
  {
    HexRoundTrip(c);
    assert EscapeU(c)[2..6] == EscapeU(c)[2..];
    hide Hex4, HexFor;
    JsonStringText.HexForIs(EscapeU(c)[2..], c);
  }

  lemma CodepointSpells(c: nat)
    requires JsonUtf8.Scalar(c)
    ensures Spells(EscapeCodepoint(c), c)
  {
    hide UFor, EscapeU;
    if c <= 0xFFFF {
      EscapeUFor(c);
    } else {
      var hi, lo := 0xD800 + (c - 0x10000) / 1024, 0xDC00 + (c - 0x10000) % 1024;
      EscapeUFor(hi);
      EscapeUFor(lo);
      PairOf(EscapeU(hi), hi, EscapeU(lo), lo);
    }
  }

  lemma PairOf(s: seq<byte>, hi: nat, t: seq<byte>, lo: nat)
    requires |s| == 6 && UFor(s, hi) && UFor(t, lo) && |t| == 6 && 0xD800 <= hi <= 0xDBFF && 0xDC00 <= lo <= 0xDFFF
    ensures PairFor(s + t, 0x10000 + (hi - 0xD800) * 0x400 + (lo - 0xDC00))
  {
    hide UFor;
    assert (s + t)[..6] == s && (s + t)[6..] == t;
  }

  /** The character an escaped unit writes. */
  function UnitScalar(s: seq<byte>): nat
    requires s != []
  {
    if s[0] >= 0x80 && Utf8Decode(s).size == 0 then REPLACEMENT else Utf8Decode(s).codepoint
  }

  lemma UnitSpells(s: seq<byte>, ascii: bool)
    requires s != []
    ensures Spells(EscapeUnit(s, ascii), UnitScalar(s)) && UnitScalar(s) <= 0x10FFFF && UnitText(s) == Utf8Encode(UnitScalar(s))
  {
    if s[0] < 0x80 {
      AsciiSpells(s, ascii);
    } else if Utf8Decode(s).size == 0 {
      CodepointSpells(REPLACEMENT);
    } else {
      DecodeEncode(s);
      var r := Utf8Decode(s);
      assert UnitSize(s) == r.size && r.codepoint >= 0x80;
      CodepointSpells(r.codepoint);
      JsonUtf8.Utf8OfIs(r.codepoint, s[..r.size]);
    }
  }

  lemma AsciiSpells(s: seq<byte>, ascii: bool)
    requires s != [] && s[0] < 0x80
    ensures Spells(EscapeUnit(s, ascii), s[0]) && UnitText(s) == Utf8Encode(s[0]) && UnitScalar(s) == s[0]
  {
    if ShortEscape(s[0]) != 0 {
      ShortSpells(s[0]);
    } else if s[0] < 0x20 {
      EscapeUFor(s[0]);
    } else {
      assert JsonUtf8.Utf8Of(s[0], [s[0]]);
    }
  }

  ghost function LettersOf(s: seq<byte>, ascii: bool): seq<Letter>
    decreases |s|
  {
    if s == [] then [] else [Letter(EscapeUnit(s, ascii), UnitScalar(s))] + LettersOf(s[UnitSize(s)..], ascii)
  }

  /** An escaped string is a string of the grammar, and its text is the cleaned source. */
  lemma {:induction false} EscapeSpelled(s: seq<byte>, ascii: bool)
    ensures var ls := LettersOf(s, ascii); Spelled(ls) && Spelling(ls) == Escape(s, ascii) && TextOf(ls) == Clean(s)
    decreases |s|
  {
    if s != [] {
      hide Spells, EscapeUnit, UnitText, UnitScalar, UnitSize, Utf8Encode, Spelled, Spelling, TextOf;
      UnitSpells(s, ascii);
      var rest := LettersOf(s[UnitSize(s)..], ascii);
      EscapeSpelled(s[UnitSize(s)..], ascii);
      JsonStringText.SpelledMore(Letter(EscapeUnit(s, ascii), UnitScalar(s)), rest);
      EscapeFirst(s, ascii);
    }
  }

  lemma {:induction false} DigitsNumeral(n: nat)
    ensures var s := Decimals.Digits(n); JsonGrammar.AllDigits(s) && NumeralOf(s) == n
  {
    hide NumeralOf, JsonGrammar.AllDigits, DigitOf, Bytes;
    var d := ('0' as int + n % 10) as char;
    DigitIs(d);
    DigitByte(d);
    if n >= 10 {
      DigitsNumeral(n / 10);
      NumeralMore(Decimals.Digits(n / 10), d);
    } else {
      NumeralNone();
      NumeralMore("", d);
      assert "" + [d] == [d];
    }
  }

  lemma NumeralNone()
    ensures JsonGrammar.AllDigits("") && NumeralOf("") == 0
  {
  }

  /** No leading zero. */
  lemma {:induction false} DigitsLead(n: nat)
    ensures n < 10 ==> |Decimals.Digits(n)| == 1
    ensures n > 0 ==> Decimals.Digits(n)[0] != '0'
  {
    if n >= 10 {
      DigitsLead(n / 10);
    }
  }

  lemma NumeralMore(s: string, d: char)
    requires JsonGrammar.AllDigits(s) && d in DIGITS
    ensures JsonGrammar.AllDigits(s + [d]) && NumeralOf(s + [d]) == NumeralOf(s) * 10 + DigitOf(d)
    ensures Bytes(s + [d]) == Bytes(s) + [(d as int) % 256]
  {
    hide DigitOf;
    assert (s + [d])[..|s|] == s;
  }

  lemma {:induction false} DigitsBytes(n: nat)
    ensures Bytes(Decimals.Digits(n)) == Decimal(n)
  {
    var d := ('0' as int + n % 10) as char;
    if n >= 10 {
      DigitsBytes(n / 10);
      BytesMore(Decimals.Digits(n / 10), d);
    } else {
      BytesMore("", d);
      assert "" + [d] == [d];
    }
  }

  lemma BytesMore(s: string, d: char)
    requires d as int < 256
    ensures Bytes(s + [d]) == Bytes(s) + [d as int]
  {
  }

  function Magnitude(n: int): nat
  {
    if n < 0 then -n else n
  }

  ghost function ValueOf(d: Doc, ascii: bool): Value
  {
    match d
    case Leaf(_, Str(s)) => Letters(LettersOf(s, ascii))
    case Leaf(_, Bool(b)) => Word(if b then "true" else "false")
    case Leaf(_, Null) => Word("null")
    case Leaf(_, Num(n)) => Numeral(n < 0, Decimals.Digits(Magnitude(n)))
    case Arr(_, items) => Array([], ValuesOf(items, ascii))
    case Obj(_, members) => Object([], PairsOf(members, ascii))
  }

  ghost function ValuesOf(items: Docs, ascii: bool): Values
  {
    if items.Nil? then VNil else VCons([], ValueOf(items.hd, ascii), [], ValuesOf(items.tl, ascii))
  }

  ghost function PairsOf(members: Members, ascii: bool): Pairs
  {
    if members.MNil? then PNil
    else PCons([], LettersOf(members.key, ascii), [], [], ValueOf(members.val, ascii), [], PairsOf(members.tl, ascii))
  }

  lemma LeafPrinted(d: Doc, ascii: bool)
    requires d.Leaf?
    ensures Grammatical(ValueOf(d, ascii)) && Chars(ValueOf(d, ascii)) == Print(d, ascii) && Meaning(ValueOf(d, ascii)) == Cleaned(d)
  {
    hide Bytes, Spelled, Spelling, TextOf, LettersOf, Escape, Clean, Decimal, Decimals.Digits, NumeralOf, JsonGrammar.AllDigits;
    match d.v
    case Str(s) =>
      EscapeSpelled(s, ascii);
      MarkBytes();
    case Bool(b) => WordBytes();
    case Null => WordBytes();
    case Num(n) => NumberPrinted(n);
  }

  lemma NumberPrinted(n: int)
    ensures var s := Decimals.Digits(Magnitude(n));
            && JsonGrammar.AllDigits(s) && (s[0] == '0' ==> |s| == 1) && IntegerOf(n < 0, s) == n
            && Chars(Numeral(n < 0, s)) == NumberText(n)
  {
    hide Bytes, Decimal, Decimals.Digits, NumeralOf;
    DigitsNumeral(Magnitude(n));
    DigitsLead(Magnitude(n));
    DigitsBytes(Magnitude(n));
    MinusBytes();
    assert [] + Decimal(Magnitude(n)) == Decimal(Magnitude(n));
  }

  /** What is printed for a document is a JSON text, without white space, and it stands for the
      document with its texts cleaned. */
  lemma {:induction false} PrintedText(d: Doc, ascii: bool)
    ensures Grammatical(ValueOf(d, ascii)) && Chars(ValueOf(d, ascii)) == Print(d, ascii) && Meaning(ValueOf(d, ascii)) == Cleaned(d)
    decreases d, 0
  {
    hide Chars, Grammatical, Meaning, Print, Cleaned, ValueOf;
    if d.Leaf? {
      LeafPrinted(d, ascii);
    } else if d.Arr? {
      PrintedItems(d.items, ascii);
      ArrPrinted(d, ascii);
    } else {
      PrintedMembers(d.members, ascii);
      ObjPrinted(d, ascii);
    }
  }

  lemma ArrPrinted(d: Doc, ascii: bool)
    requires d.Arr? && GrammaticalItems(ValuesOf(d.items, ascii)) && ItemChars(ValuesOf(d.items, ascii)) == PrintItems(d.items, ascii)
    requires MeaningItems(ValuesOf(d.items, ascii)) == CleanedItems(d.items)
    ensures Grammatical(ValueOf(d, ascii)) && Chars(ValueOf(d, ascii)) == Print(d, ascii) && Meaning(ValueOf(d, ascii)) == Cleaned(d)
  {
    hide Bytes, ItemChars, PrintItems, GrammaticalItems, MeaningItems, ValuesOf, CleanedItems;
    MarkBytes();
    assert [] + PrintItems(d.items, ascii) == PrintItems(d.items, ascii);
  }

  lemma ObjPrinted(d: Doc, ascii: bool)
    requires d.Obj? && GrammaticalPairs(PairsOf(d.members, ascii)) && PairChars(PairsOf(d.members, ascii)) == PrintMembers(d.members, ascii)
    requires MeaningPairs(PairsOf(d.members, ascii)) == CleanedMembers(d.members)
    ensures Grammatical(ValueOf(d, ascii)) && Chars(ValueOf(d, ascii)) == Print(d, ascii) && Meaning(ValueOf(d, ascii)) == Cleaned(d)
  {
    hide Bytes, PairChars, PrintMembers, GrammaticalPairs, MeaningPairs, PairsOf, CleanedMembers;
    MarkBytes();
    assert [] + PrintMembers(d.members, ascii) == PrintMembers(d.members, ascii);
  }

  lemma {:induction false} PrintedItems(items: Docs, ascii: bool)
    ensures GrammaticalItems(ValuesOf(items, ascii)) && ItemChars(ValuesOf(items, ascii)) == PrintItems(items, ascii)
    ensures MeaningItems(ValuesOf(items, ascii)) == CleanedItems(items)
    decreases items, 0
  {
    hide Chars, Grammatical, Meaning, Print;
    if items.Cons? {
      PrintedText(items.hd, ascii);
      PrintedItems(items.tl, ascii);
      MarkBytes();
      hide Bytes;
      assert [] + Print(items.hd, ascii) + [] == Print(items.hd, ascii);
    }
  }

  lemma {:induction false} PrintedMembers(members: Members, ascii: bool)
    ensures GrammaticalPairs(PairsOf(members, ascii)) && PairChars(PairsOf(members, ascii)) == PrintMembers(members, ascii)
    ensures MeaningPairs(PairsOf(members, ascii)) == CleanedMembers(members)
    decreases members, 0
  {
    hide Chars, Grammatical, Meaning, Print, Escape, Clean, Spelled, Spelling, TextOf, LettersOf;
    if members.MCons? {
      EscapeSpelled(members.key, ascii);
      PrintedText(members.val, ascii);
      PrintedMembers(members.tl, ascii);
      MarkBytes();
      hide Bytes;
      var q, text := Quoted(members.key, ascii), Print(members.val, ascii);
      assert [] + (q + [] + [COLON]) + ([] + text + []) == q + [COLON] + text;
    }
  }

  /** Parsing the printed form of any document gives that document, texts cleaned, correctly linked. */
  lemma ParsePrinted(d: Doc, ascii: bool)
    ensures var r := Run(Print(d, ascii), 0, INITIAL);
            r.Accepted? && r.st.root == 1 && Fits(r.st.m, Placed(Cleaned(d), 1), NULL, NULL)
  {
    PrintedText(d, ascii);
    hide Chars, Grammatical, Meaning, Print, Run, Placed, Fits;
    ParseText([], ValueOf(d, ascii), []);
    assert [] + Print(d, ascii) + [] == Print(d, ascii);
  }

  // ----- sameness of documents

  /** A document without its addresses. */
  ghost function Content(d: Doc): Doc
  {
    match d
    case Leaf(_, v) => Leaf(NULL, v)
    case Arr(_, items) => Arr(NULL, ContentItems(items))
    case Obj(_, members) => Obj(NULL, ContentMembers(members))
  }

  ghost function ContentItems(items: Docs): Docs
  {
    if items.Nil? then Nil else Cons(Content(items.hd), ContentItems(items.tl))
  }

  ghost function ContentMembers(members: Members): Members
  {
    if members.MNil? then MNil else MCons(NULL, members.key, Content(members.val), ContentMembers(members.tl))
  }

  ghost predicate ValidTexts(d: Doc)
  {
    match d
    case Leaf(_, v) => v.Str? ==> ValidUtf8(v.text)
    case Arr(_, items) => ValidTextsItems(items)
    case Obj(_, members) => ValidTextsMembers(members)
  }

  ghost predicate ValidTextsItems(items: Docs)
  {
    items.Cons? ==> ValidTexts(items.hd) && ValidTextsItems(items.tl)
  }

  ghost predicate ValidTextsMembers(members: Members)
  {
    members.MCons? ==> ValidUtf8(members.key) && ValidTexts(members.val) && ValidTextsMembers(members.tl)
  }

  lemma {:induction false} PlacedContent(d: Doc, lo: Ptr)
    ensures Content(Placed(Cleaned(d), lo)) == Content(d) <==> ValidTexts(d)
    decreases d, 0
  {
    match d
    case Leaf(_, v) =>
      if v.Str? {
        CleanUnchanged(v.text);
      }
    case Arr(_, items) => PlacedContentItems(items, lo + 1);
    case Obj(_, members) => PlacedContentMembers(members, lo + 1);
  }

  lemma {:induction false} PlacedContentItems(items: Docs, lo: Ptr)
    ensures ContentItems(PlacedItems(CleanedItems(items), lo)) == ContentItems(items) <==> ValidTextsItems(items)
    decreases items, 0
  {
    if items.Cons? {
      PlacedContent(items.hd, lo);
      PlacedContentItems(items.tl, lo + Tokens(Cleaned(items.hd)));
    }
  }

  lemma {:induction false} PlacedContentMembers(members: Members, lo: Ptr)
    ensures ContentMembers(PlacedMembers(CleanedMembers(members), lo)) == ContentMembers(members) <==> ValidTextsMembers(members)
    decreases members, 0
  {
    if members.MCons? {
      CleanUnchanged(members.key);
      PlacedContent(members.val, lo + 1);
      PlacedContentMembers(members.tl, lo + 1 + Tokens(Cleaned(members.val)));
    }
  }

  /** The round trip: printing and parsing gives back the same document, links included, exactly
      when its strings and keys are valid UTF-8. */
  lemma DocumentRoundTrip(d: Doc, ascii: bool) returns (d': Doc)
    ensures var r := Run(Print(d, ascii), 0, INITIAL);
            && r.Accepted? && r.st.root == Ref(d') && Fits(r.st.m, d', NULL, NULL)
            && (Content(d') == Content(d) <==> ValidTexts(d))
  {
    ParsePrinted(d, ascii);
    PlacedContent(d, 1);
    d' := Placed(Cleaned(d), 1);
  }

  /** json_copy: a document printed and parsed again. It succeeds exactly on printable documents,
      and the copy is a well-linked tree, equal to the original exactly when the texts are valid UTF-8. */
  method Copy(m: Memory, root: Ptr, ascii: bool, ghost d: Doc) returns (ok: bool, m': Memory, root': Ptr, ghost d': Doc)
    requires root == Ref(d) && Fits(m, d, NULL, NULL)
    ensures ok == Printable(d)
    ensures ok ==> root' == Ref(d') && Fits(m', d', NULL, NULL) && (Content(d') == Content(d) <==> ValidTexts(d))
  {
    m', root' := map[], NULL;
    var text;
    ok, text := Stringify(m, root, ascii, d);
    d' := DocumentRoundTrip(d, ascii);
    if ok {
      var r := Parse(text);
      m', root' := r.st.m, r.st.root;
    }
  }
}
