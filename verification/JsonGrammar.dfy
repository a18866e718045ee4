/** JSON texts by RFC 8259: white space, the three literal names, integers, strings with every way to
    write a character, arrays and objects, and the document a text stands for. */
module JsonGrammar {
  import opened Ascii
  import opened Common
  import JsonString
  import JsonUtf8
  import opened JsonTree

  /** The octets of a text in ASCII. */
  ghost function Bytes(s: string): (r: seq<byte>)
    ensures |r| == |s|
  {
    seq(|s|, i requires 0 <= i < |s| => (s[i] as int) % 256)
  }

  // ----- strings (section 7)

  ghost predicate Unescaped(c: nat)
  {
    0x20 <= c <= 0x21 || 0x23 <= c <= 0x5B || 0x5D <= c <= 0x10FFFF
  }

  /** The characters after a backslash, and what they stand for. */
  const SHORT := "\"\\/bfnrt"
  const SHORT_FOR: seq<nat> := [0x22, 0x5C, 0x2F, 0x08, 0x0C, 0x0A, 0x0D, 0x09]

  ghost predicate ShortFor(s: seq<byte>, c: nat)
  {
    |s| == 2 && s[0] == '\\' as int && exists k :: 0 <= k < |SHORT| && s[1] == SHORT[k] as int && c == SHORT_FOR[k]
  }

  /** Four hexadecimal digits, of either case. */
  ghost predicate HexFor(s: seq<byte>, n: nat)
  {
    |s| == 4 && exists a: nat, b: nat, c: nat, d: nat ::
      HexIs(s[0], a) && HexIs(s[1], b) && HexIs(s[2], c) && HexIs(s[3], d) && n == ((a * 16 + b) * 16 + c) * 16 + d
  }

  ghost predicate UFor(s: seq<byte>, n: nat)
  {
    |s| == 6 && s[0] == '\\' as int && s[1] == 'u' as int && HexFor(s[2..], n)
  }

  /** Twelve characters for a surrogate pair. */
  ghost predicate PairFor(s: seq<byte>, c: nat)
  {
    |s| == 12 && exists hi: nat, lo: nat ::
      && UFor(s[..6], hi) && UFor(s[6..], lo) && 0xD800 <= hi <= 0xDBFF && 0xDC00 <= lo <= 0xDFFF
      && c == 0x10000 + (hi - 0xD800) * 0x400 + (lo - 0xDC00)
  }

  /** The octets s are one of the ways to write the character with scalar value c in a string. */
  ghost predicate Spells(s: seq<byte>, c: nat)
  {
    JsonUtf8.Scalar(c) && ((Unescaped(c) && JsonUtf8.Utf8Of(c, s)) || ShortFor(s, c) || UFor(s, c) || PairFor(s, c))
  }

  /** A character and how it is written. */
  datatype Letter = Letter(written: seq<byte>, scalar: nat)

  ghost predicate Spelled(ls: seq<Letter>)
  {
    forall i :: 0 <= i < |ls| ==> Spells(ls[i].written, ls[i].scalar)
  }

  ghost function Spelling(ls: seq<Letter>): seq<byte>
  {
    if ls == [] then [] else ls[0].written + Spelling(ls[1..])
  }

  /** The text of a string, in UTF-8. */
  ghost function TextOf(ls: seq<Letter>): seq<byte>
    requires Spelled(ls)
  {
    if ls == [] then [] else JsonString.Utf8Encode(ls[0].scalar) + TextOf(ls[1..])
  }

  ghost function StringChars(ls: seq<Letter>): seq<byte>
  {
    Bytes("\"") + Spelling(ls) + Bytes("\"")
  }

  // ----- values (sections 2 to 6)

  ghost predicate Space(s: seq<byte>)
  {
    forall i :: 0 <= i < |s| ==> s[i] == 0x20 || s[i] == 0x09 || s[i] == 0x0A || s[i] == 0x0D
  }

  /** A text of a value, with the space in and around its parts. */
  datatype Value =
    | Word(name: string)
    | Numeral(negative: bool, digits: string)
    | Letters(ls: seq<Letter>)
    | Array(gap: seq<byte>, items: Values)
    | Object(gap: seq<byte>, members: Pairs)
  datatype Values = VNil | VCons(before: seq<byte>, hd: Value, after: seq<byte>, tl: Values)
  datatype Pairs =
    | PNil
    | PCons(before: seq<byte>, key: seq<Letter>, afterKey: seq<byte>, beforeVal: seq<byte>, val: Value, after: seq<byte>, tl: Pairs)

  /** The value of a digit is its place. */
  ghost function DigitOf(c: char): (v: nat)
    requires c in DIGITS
    ensures v < |DIGITS| && DIGITS[v] == c
  {
    var v :| 0 <= v < |DIGITS| && DIGITS[v] == c;
    v
  }

  ghost predicate AllDigits(s: string)
  {
    forall i :: 0 <= i < |s| ==> s[i] in DIGITS
  }

  ghost function NumeralOf(s: string): nat
    requires AllDigits(s)
  {
    if s == "" then 0 else NumeralOf(s[..|s| - 1]) * 10 + DigitOf(s[|s| - 1])
  }

  ghost function IntegerOf(negative: bool, digits: string): int
    requires AllDigits(digits)
  {
    var n: int := NumeralOf(digits);
    if negative then -n else n
  }

  ghost predicate InRange(n: int)
  {
    -0x8000_0000_0000_0000 <= n <= 0x7FFF_FFFF_FFFF_FFFF
  }

  ghost predicate Grammatical(v: Value)
  {
    match v
    case Word(name) => name == "true" || name == "false" || name == "null"
    case Numeral(negative, digits) =>
      && digits != "" && AllDigits(digits) && (digits[0] == '0' ==> |digits| == 1) && InRange(IntegerOf(negative, digits))
    case Letters(ls) => Spelled(ls)
    case Array(gap, items) => Space(gap) && GrammaticalItems(items)
    case Object(gap, members) => Space(gap) && GrammaticalPairs(members)
  }

  ghost predicate GrammaticalItems(items: Values)
  {
    items.VCons? ==> Space(items.before) && Grammatical(items.hd) && Space(items.after) && GrammaticalItems(items.tl)
  }

  ghost predicate GrammaticalPairs(members: Pairs)
  {
    members.PCons? ==>
      && Space(members.before) && Spelled(members.key) && Space(members.afterKey) && Space(members.beforeVal)
      && Grammatical(members.val) && Space(members.after) && GrammaticalPairs(members.tl)
  }

  ghost function Chars(v: Value): seq<byte>
    decreases v, 0
  {
    match v
    case Word(name) => Bytes(name)
    case Numeral(negative, digits) => (if negative then Bytes("-") else []) + Bytes(digits)
    case Letters(ls) => StringChars(ls)
    case Array(gap, items) => Bytes("[") + (gap + ItemChars(items)) + Bytes("]")
    case Object(gap, members) => Bytes("{") + (gap + PairChars(members)) + Bytes("}")
  }

  ghost function ItemChars(items: Values): seq<byte>
    decreases items, 0
  {
    if items.VNil? then []
    else
      var one := items.before + Chars(items.hd) + items.after;
      if items.tl.VNil? then one else one + Bytes(",") + ItemChars(items.tl)
  }

  ghost function PairOne(members: Pairs): seq<byte>
    requires members.PCons?
    decreases members, 0
  {
    (members.before + (StringChars(members.key) + members.afterKey + Bytes(":")))
    + (members.beforeVal + Chars(members.val) + members.after)
  }

  ghost function PairChars(members: Pairs): seq<byte>
    decreases members, 1
  {
    if members.PNil? then []
    else if members.tl.PNil? then PairOne(members)
    else PairOne(members) + Bytes(",") + PairChars(members.tl)
  }

  /** The document a text stands for; its tokens have no address yet. */
  ghost function Meaning(v: Value): Doc
    requires Grammatical(v)
  {
    match v
    case Word(name) => Leaf(NULL, if name == "null" then Null else Bool(name == "true"))
    case Numeral(negative, digits) => Leaf(NULL, Num(IntegerOf(negative, digits)))
    case Letters(ls) => Leaf(NULL, Str(TextOf(ls)))
    case Array(_, items) => Arr(NULL, MeaningItems(items))
    case Object(_, members) => Obj(NULL, MeaningPairs(members))
  }

  ghost function MeaningItems(items: Values): Docs
    requires GrammaticalItems(items)
  {
    if items.VNil? then Nil else Cons(Meaning(items.hd), MeaningItems(items.tl))
  }

  ghost function MeaningPairs(members: Pairs): Members
    requires GrammaticalPairs(members)
  {
    if members.PNil? then MNil else MCons(NULL, TextOf(members.key), Meaning(members.val), MeaningPairs(members.tl))
  }

  /** A JSON text: a value with space around it. */
  ghost function Text(before: seq<byte>, v: Value, after: seq<byte>): seq<byte>
  {
    before + Chars(v) + after
  }
}
