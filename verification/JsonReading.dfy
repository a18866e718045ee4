/** Parsing any JSON text of RFC 8259, with any spacing and any way of writing its strings: the parser
    builds the document the text stands for, with its kinds, texts, order, sizes and links. */
module JsonReading {
  import opened Ascii
  import opened Common
  import opened Sequences
  import opened JsonString
  import JsonUtf8
  import opened JsonTree
  import opened JsonParser
  import opened JsonGrammar
  import JsonStringText

  /** The text stands at a position of the input. */
  ghost predicate At(json: seq<byte>, pos: nat, text: seq<byte>)
  {
    pos + |text| <= |json| && json[pos..pos + |text|] == text
  }

  ghost predicate NoDigitAt(json: seq<byte>, pos: nat)
  {
    pos < |json| ==> !IsDigit(json[pos])
  }

  lemma AtParts(json: seq<byte>, pos: nat, a: seq<byte>, b: seq<byte>)
    requires At(json, pos, a + b)
    ensures At(json, pos, a) && At(json, pos + |a|, b)
  {
    assert json[pos..pos + |a|] == json[pos..pos + |a + b|][..|a|];
    assert json[pos + |a|..pos + |a| + |b|] == json[pos..pos + |a + b|][|a|..];
  }

  // ----- numbers and literals

  lemma DigitByte(c: char)
    requires c in DIGITS
    ensures 48 <= c as int <= 57 && DigitOf(c) == c as int - 48
  {
    DigitAt(DigitOf(c));
  }

  /** The digits of a numeral, as octets, are read as its value. */
  lemma {:induction false} NumeralReads(s: string)
    requires JsonGrammar.AllDigits(s)
    ensures (forall i :: 0 <= i < |s| ==> Bytes(s)[i] == s[i] as int && IsDigit(Bytes(s)[i]))
    ensures DigitsValue(Bytes(s)) == NumeralOf(s)
    decreases |s|
  {
    if s != "" {
      var k := |s| - 1;
      NumeralReads(s[..k]);
      DigitByte(s[k]);
      assert Bytes(s)[..k] == Bytes(s[..k]);
      assert forall i :: 0 <= i < k ==> Bytes(s)[i] == Bytes(s[..k])[i];
    }
  }

  lemma {:induction false} DigitRunAll(s: seq<byte>, tail: seq<byte>)
    requires (forall i :: 0 <= i < |s| ==> IsDigit(s[i])) && (tail == [] || !IsDigit(tail[0]))
    ensures DigitRun(s + tail) == |s|
  {
    if s == [] {
      assert s + tail == tail;
    } else {
      assert (s + tail)[1..] == s[1..] + tail;
      DigitRunAll(s[1..], tail);
    }
  }

  lemma MinusBytes()
    ensures Bytes("-") == [MINUS]
  {
  }

  lemma NumberReads(negative: bool, digits: string, tail: seq<byte>)
    requires digits != "" && JsonGrammar.AllDigits(digits) && (tail == [] || !IsDigit(tail[0]))
    ensures var text := Chars(Numeral(negative, digits));
            ReadNumber(text + tail) == Some(Number(IntegerOf(negative, digits), |text|))
    ensures var b := Chars(Numeral(negative, digits))[0]; b == MINUS || IsDigit(b)
  {
    hide DigitRun, DigitsValue, Bytes, ReadNumber;
    NumeralReads(digits);
    var d := Bytes(digits);
    DigitRunAll(d, tail);
    assert IsDigit(d[0]);
    MinusBytes();
    if negative {
      Assoc([MINUS], d, tail);
      SignedReads(d, tail);
    } else {
      assert [] + d == d;
      UnsignedReads(d, tail);
    }
  }

  lemma UnsignedReads(d: seq<byte>, tail: seq<byte>)
    requires |d| > 0 && IsDigit(d[0]) && DigitRun(d + tail) == |d|
    ensures ReadNumber(d + tail) == Some(Number(DigitsValue(d), |d|))
  {
    hide DigitRun, DigitsValue;
    var s := d + tail;
    DropPrefix(d, tail);
    assert s[0] == d[0];
    assert s[0..] == s && s[0..|d|] == s[..|d|];
  }

  lemma SignedReads(d: seq<byte>, tail: seq<byte>)
    requires |d| > 0 && DigitRun(d + tail) == |d|
    ensures ReadNumber([MINUS] + (d + tail)) == Some(Number(-DigitsValue(d), 1 + |d|))
  {
    hide DigitRun, DigitsValue;
    var s := [MINUS] + (d + tail);
    DropPrefix([MINUS], d + tail);
    DropPrefix(d, tail);
    assert s[1..1 + |d|] == s[1..][..|d|];
  }

  lemma AtRest(json: seq<byte>, pos: nat, text: seq<byte>)
    requires At(json, pos, text) && |text| > 0
    ensures pos + |text| <= |json| && json[pos] == text[0]
    ensures json[pos + 1..] == text[1..] + json[pos + |text|..]
  {
    assert json[pos..pos + |text|][0] == text[0];
    assert text[1..] == json[pos + 1..pos + |text|];
  }

  lemma LiteralReads(json: seq<byte>, pos: nat, literal: seq<byte>, n: nat)
    requires At(json, pos, literal) && n <= |literal|
    ensures LiteralAt(json, pos, literal, n)
  {
    forall i | 0 <= i < n
      ensures json[pos + i] == literal[i]
    {
      assert json[pos..pos + |literal|][i] == literal[i];
    }
  }

  lemma WordBytes()
    ensures Bytes("true") == TRUE_TEXT && Bytes("false") == FALSE_TEXT && Bytes("null") == NULL_TEXT
  {
  }

  lemma MarkBytes()
    ensures Bytes("[") == [LBRACKET] && Bytes("]") == [RBRACKET] && Bytes("{") == [LBRACE] && Bytes("}") == [RBRACE]
    ensures Bytes(",") == [COMMA] && Bytes(":") == [COLON] && Bytes("\"") == [QUOTE]
  {
  }

  lemma StringReads(json: seq<byte>, pos: nat, ls: seq<Letter>)
    requires Spelled(ls) && At(json, pos, StringChars(ls))
    ensures pos < |json| && json[pos] == QUOTE && |StringChars(ls)| == |Spelling(ls)| + 2
    ensures StringAt(json, pos) == Some(Scanned(TextOf(ls), |Spelling(ls)| + 1))
  {
    hide Spelled, Spelling, TextOf, StringAt, StringChars;
    StringLength(ls);
    var tail := json[pos + |StringChars(ls)|..];
    assert json[pos..] == StringChars(ls) + tail;
    JsonStringText.TokenReads(json, pos, ls, tail);
  }

  lemma StringLength(ls: seq<Letter>)
    ensures |StringChars(ls)| == |Spelling(ls)| + 2
  {
  }

  // ----- the document the parser builds

  ghost function Tokens(d: Doc): nat
  {
    match d
    case Leaf(_, _) => 1
    case Arr(_, items) => 1 + TokensItems(items)
    case Obj(_, members) => 1 + TokensMembers(members)
  }

  ghost function TokensItems(items: Docs): nat
  {
    if items.Nil? then 0 else Tokens(items.hd) + TokensItems(items.tl)
  }

  ghost function TokensMembers(members: Members): nat
  {
    if members.MNil? then 0 else 1 + Tokens(members.val) + TokensMembers(members.tl)
  }

  /** The same document with its tokens at lo, lo + 1, ... in reading order. */
  ghost function Placed(d: Doc, lo: Ptr): Doc
  {
    match d
    case Leaf(_, v) => Leaf(lo, v)
    case Arr(_, items) => Arr(lo, PlacedItems(items, lo + 1))
    case Obj(_, members) => Obj(lo, PlacedMembers(members, lo + 1))
  }

  ghost function PlacedItems(items: Docs, lo: Ptr): Docs
  {
    if items.Nil? then Nil else Cons(Placed(items.hd, lo), PlacedItems(items.tl, lo + Tokens(items.hd)))
  }

  ghost function PlacedMembers(members: Members, lo: Ptr): Members
  {
    if members.MNil? then MNil
    else MCons(lo, members.key, Placed(members.val, lo + 1), PlacedMembers(members.tl, lo + 1 + Tokens(members.val)))
  }

  // ----- frames

  ghost predicate SameRange(m: Memory, m': Memory, lo: Ptr, hi: Ptr)
  {
    forall p :: lo <= p < hi && p in m ==> p in m' && m'[p] == m[p]
  }

  lemma {:induction false} FitsFrame(m: Memory, m': Memory, d: Doc, lo: Ptr, parent: Ptr, sibling: Ptr)
    requires Fits(m, Placed(d, lo), parent, sibling) && SameRange(m, m', lo, lo + Tokens(d))
    ensures Fits(m', Placed(d, lo), parent, sibling)
    decreases d, 0
  {
    match d
    case Leaf(_, _) =>
    case Arr(_, items) => FitsItemsFrame(m, m', items, lo + 1, lo);
    case Obj(_, members) => FitsMembersFrame(m, m', members, lo + 1, lo);
  }

  lemma {:induction false} FitsItemsFrame(m: Memory, m': Memory, items: Docs, lo: Ptr, parent: Ptr)
    requires FitsItems(m, PlacedItems(items, lo), parent) && SameRange(m, m', lo, lo + TokensItems(items))
    ensures FitsItems(m', PlacedItems(items, lo), parent)
    decreases items, 0
  {
    if items.Cons? {
      FitsFrame(m, m', items.hd, lo, parent, First(PlacedItems(items.tl, lo + Tokens(items.hd))));
      FitsItemsFrame(m, m', items.tl, lo + Tokens(items.hd), parent);
    }
  }

  lemma {:induction false} FitsMembersFrame(m: Memory, m': Memory, members: Members, lo: Ptr, parent: Ptr)
    requires FitsMembers(m, PlacedMembers(members, lo), parent) && SameRange(m, m', lo, lo + TokensMembers(members))
    ensures FitsMembers(m', PlacedMembers(members, lo), parent)
    decreases members, 0
  {
    if members.MCons? {
      FitsFrame(m, m', members.val, lo + 1, lo, NULL);
      FitsMembersFrame(m, m', members.tl, lo + 1 + Tokens(members.val), parent);
    }
  }

  /** A document whose top token got a sibling. */
  lemma FitsMoved(m: Memory, m': Memory, d: Doc, lo: Ptr, parent: Ptr, sibling: Ptr)
    requires Fits(m, Placed(d, lo), parent, NULL) && SameRange(m, m', lo + 1, lo + Tokens(d))
    requires lo in m' && m'[lo] == m[lo].(sibling := sibling)
    ensures Fits(m', Placed(d, lo), parent, sibling)
  {
    match d
    case Leaf(_, _) =>
    case Arr(_, items) => FitsItemsFrame(m, m', items, lo + 1, lo);
    case Obj(_, members) => FitsMembersFrame(m, m', members, lo + 1, lo);
  }

  /** The old tokens after count new children, from first to last, were hung under super. */
  ghost predicate Kept(m: Memory, m': Memory, super: Ptr, first: Ptr, last: Ptr, count: nat)
  {
    && (forall p :: p in m ==> p in m')
    && (super == NULL ==> forall p :: p in m ==> m'[p] == m[p])
    && (super != NULL && super in m ==>
          var s, prev := m[super], OldLast(m, super);
          && m'[super] == s.(child := if s.child == NULL then first else s.child, last := last,
                             size := if IsContainer(s.kind) then s.size + count else s.size)
          && (prev != NULL && prev in m ==> m'[prev] == m[prev].(sibling := first))
          && forall p :: p in m && p != super && p != prev ==> m'[p] == m[p])
  }

  lemma AddedKept(st: PState, token: Token)
    requires Sound(st) && token == NewToken(token.kind, token.text, token.number)
    ensures var st' := Added(st, token);
            && Kept(st.m, st'.m, st.super, st.next, st.next, 1)
            && st.next in st'.m && st'.m[st.next] == token.(parent := st.super)
            && Sound(st') && st'.super == st.super && st'.last == st.next && st'.next == st.next + 1
            && st'.root == if st.root == NULL then st.next else st.root
  {
    AddedSound(st, token);
    hide Linked;
    if st.super != NULL {
      LinkedCells(st.m[st.next := token], st.super, st.next);
    }
  }

  /** Parsing from pos in st comes out as parsing from pos' in st'. */
  ghost predicate Same(json: seq<byte>, pos: nat, st: PState, pos': nat, st': PState)
  {
    Sound(st) && Sound(st') && Run(json, pos, st) == Run(json, pos', st')
  }

  lemma SameThrough(json: seq<byte>, pos: nat, st: PState, pos1: nat, st1: PState, pos2: nat, st2: PState)
    requires Same(json, pos, st, pos1, st1) && Same(json, pos1, st1, pos2, st2)
    ensures Same(json, pos, st, pos2, st2)
  {
  }

  /** The parser, having read the document d at pos, is in state st': d hangs under the current
      parent, which is unchanged, and nothing else moved. */
  ghost predicate Read(json: seq<byte>, pos: nat, st: PState, d: Doc, n: nat, st': PState)
  {
    && Sound(st) && Sound(st') && Same(json, pos, st, pos + n, st')
    && st'.super == st.super && st'.next == st.next + Tokens(d)
    && st'.root == (if st.root == NULL then st.next else st.root)
    && Fits(st'.m, Placed(d, st.next), st.super, NULL)
    && Kept(st.m, st'.m, st.super, st.next, st.next, 1)
  }

  /** Values may stand at top level, in an array, or under a key. */
  ghost predicate TakesValue(st: PState)
  {
    st.super == NULL || (st.super in st.m && st.m[st.super].kind != ObjectKind)
  }

  ghost function TokenFor(v: Scalar): Token
  {
    match v
    case Str(s) => NewToken(StringKind, s, 0)
    case Bool(b) => NewToken(BoolKind, [], if b then 1 else 0)
    case Null => NewToken(NullKind, [], 0)
    case Num(n) => NewToken(NumberKind, [], n)
  }

  ghost predicate IsLeaf(v: Value)
  {
    v.Word? || v.Numeral? || v.Letters?
  }

  lemma ReadLeaf(json: seq<byte>, pos: nat, st: PState, v: Value) returns (st': PState)
    requires Sound(st) && TakesValue(st) && IsLeaf(v) && Grammatical(v)
    requires At(json, pos, Chars(v)) && NoDigitAt(json, pos + |Chars(v)|)
    ensures Read(json, pos, st, Meaning(v), |Chars(v)|, st')
  {
    hide Added, Chars, Step;
    LeafStep(json, pos, st, v);
    var token := TokenFor(Meaning(v).v);
    StepSound(json, pos, st);
    st' := Added(st, token);
    AddedKept(st, token);
  }

  lemma LeafStep(json: seq<byte>, pos: nat, st: PState, v: Value)
    requires Sound(st) && TakesValue(st) && IsLeaf(v) && Grammatical(v)
    requires At(json, pos, Chars(v)) && NoDigitAt(json, pos + |Chars(v)|)
    ensures Meaning(v).Leaf? && pos < |json| && json[pos] != 0
    ensures Step(json, pos, st) == Go(pos + |Chars(v)|, Added(st, TokenFor(Meaning(v).v)))
  {
    hide Added, Bytes, Spelled, TextOf, StringChars, Step, Sound, At, NoDigitAt, TakesValue;
    match v
    case Word(name) => WordStep(json, pos, st, name);
    case Letters(ls) => LettersStep(json, pos, st, ls);
    case Numeral(negative, digits) => NumeralStep(json, pos, st, negative, digits);
  }

  lemma WordStep(json: seq<byte>, pos: nat, st: PState, name: string)
    requires Sound(st) && TakesValue(st) && (name == "true" || name == "false" || name == "null") && At(json, pos, Bytes(name))
    ensures pos < |json| && json[pos] != 0
    ensures Step(json, pos, st)
         == Go(pos + |Bytes(name)|, Added(st, TokenFor(if name == "null" then Null else Bool(name == "true"))))
  {
    hide Added, Bytes;
    WordBytes();
    LiteralReads(json, pos, Bytes(name), 4);
    assert json[pos..pos + |Bytes(name)|][0] == Bytes(name)[0];
  }

  lemma LettersStep(json: seq<byte>, pos: nat, st: PState, ls: seq<Letter>)
    requires Sound(st) && Spelled(ls) && At(json, pos, StringChars(ls))
    ensures pos < |json| && json[pos] != 0
    ensures Step(json, pos, st) == Go(pos + |StringChars(ls)|, Added(st, TokenFor(Str(TextOf(ls)))))
  {
    hide Added, StringAt, Spelled, TextOf, Spelling, StringChars, At;
    StringReads(json, pos, ls);
  }

  lemma NumeralStep(json: seq<byte>, pos: nat, st: PState, negative: bool, digits: string)
    requires Sound(st) && TakesValue(st) && digits != "" && JsonGrammar.AllDigits(digits) && InRange(IntegerOf(negative, digits))
    requires At(json, pos, Chars(Numeral(negative, digits))) && NoDigitAt(json, pos + |Chars(Numeral(negative, digits))|)
    ensures pos < |json| && json[pos] != 0
    ensures Step(json, pos, st)
         == Go(pos + |Chars(Numeral(negative, digits))|, Added(st, TokenFor(Num(IntegerOf(negative, digits)))))
  {
    hide Added, ReadNumber, Chars, IntegerOf;
    var text := Chars(Numeral(negative, digits));
    var tail := json[pos + |text|..];
    assert json[pos..] == json[pos..pos + |text|] + tail;
    NumberReads(negative, digits, tail);
    assert json[pos..pos + |text|][0] == text[0];
  }

  // ----- arrays

  /** One character that only moves the current parent. */
  lemma RunStep(json: seq<byte>, pos: nat, st: PState)
    requires Sound(st) && pos < |json| && json[pos] != 0 && Step(json, pos, st).Go?
    ensures var r := Step(json, pos, st); Sound(r.st) && Same(json, pos, st, r.pos, r.st)
  {
    StepSound(json, pos, st);
  }

  lemma SameHere(json: seq<byte>, pos: nat, st: PState)
    requires Sound(st)
    ensures Same(json, pos, st, pos, st)
  {
  }

  /** White space changes nothing. */
  lemma {:induction false} SpaceRun(json: seq<byte>, pos: nat, st: PState, gap: seq<byte>)
    requires Sound(st) && Space(gap) && At(json, pos, gap)
    ensures Same(json, pos, st, pos + |gap|, st)
    decreases |gap|
  {
    hide Same, Sound;
    if gap == [] {
      SameHere(json, pos, st);
    } else {
      AtRest(json, pos, gap);
      AtTail(json, pos, gap);
      SpaceStep(json, pos, st);
      SpaceRun(json, pos + 1, st, gap[1..]);
      SameThrough(json, pos, st, pos + 1, st, pos + |gap|, st);
    }
  }

  lemma AtTail(json: seq<byte>, pos: nat, text: seq<byte>)
    requires At(json, pos, text) && text != []
    ensures At(json, pos + 1, text[1..])
  {
    assert text == [text[0]] + text[1..];
    AtParts(json, pos, [text[0]], text[1..]);
  }

  lemma SpaceStep(json: seq<byte>, pos: nat, st: PState)
    requires Sound(st) && pos < |json| && (json[pos] == 0x20 || json[pos] == 0x09 || json[pos] == 0x0A || json[pos] == 0x0D)
    ensures Same(json, pos, st, pos + 1, st)
  {
    RunStep(json, pos, st);
  }

  /** A value with space around it. */
  lemma ReadSpaced(json: seq<byte>, pos: nat, st: PState, before: seq<byte>, d: Doc, n: nat, after: seq<byte>, st': PState)
    requires Sound(st) && Space(before) && Space(after) && At(json, pos, before) && At(json, pos + |before| + n, after)
    requires Read(json, pos + |before|, st, d, n, st')
    ensures Read(json, pos, st, d, |before| + n + |after|, st')
  {
    hide Read, Same, Sound, Space, At;
    ReadParts(json, pos + |before|, st, d, n, st');
    SpaceRun(json, pos, st, before);
    SpaceRun(json, pos + |before| + n, st', after);
    ReadMoved(json, pos, st, |before|, d, n, |after|, st');
  }

  lemma ReadParts(json: seq<byte>, pos: nat, st: PState, d: Doc, n: nat, st': PState)
    requires Read(json, pos, st, d, n, st')
    ensures Sound(st) && Sound(st') && Same(json, pos, st, pos + n, st')
  {
    hide Sound, Same;
  }

  lemma ReadMoved(json: seq<byte>, pos: nat, st: PState, a: nat, d: Doc, n: nat, b: nat, st': PState)
    requires Same(json, pos, st, pos + a, st) && Read(json, pos + a, st, d, n, st') && Same(json, pos + a + n, st', pos + a + n + b, st')
    ensures Read(json, pos, st, d, a + n + b, st')
  {
    hide Same, Sound, Fits, Kept;
    SameThrough(json, pos, st, pos + a, st, pos + a + n, st');
    SameThrough(json, pos, st, pos + a + n, st', pos + a + n + b, st');
  }

  /** No digit at the start of space followed by something else. */
  lemma NoDigitBefore(json: seq<byte>, pos: nat, gap: seq<byte>)
    requires Space(gap) && At(json, pos, gap) && NoDigitAt(json, pos + |gap|)
    ensures NoDigitAt(json, pos)
  {
    if gap != [] {
      AtRest(json, pos, gap);
    }
  }

  /** Items of an array, read one after the other under the array token. */
  ghost predicate ReadItems(json: seq<byte>, pos: nat, st: PState, items: Docs, n: nat, st': PState)
  {
    var items' := PlacedItems(items, st.next);
    && Sound(st) && Sound(st') && Same(json, pos, st, pos + n, st')
    && st'.super == st.super && st'.next == st.next + TokensItems(items) && st'.root == st.root
    && FitsItems(st'.m, items', st.super)
    && Kept(st.m, st'.m, st.super, First(items'), Last(items'), Count(items'))
  }

  /** One item, a comma, and the items after it. */
  lemma ReadItemsCons(json: seq<byte>, pos: nat, st: PState, d: Doc, n: nat, st1: PState, tl: Docs, n': nat, st2: PState)
    requires st.super != NULL && st.super in st.m && st.m[st.super].kind == ArrayKind && st.root != NULL
    requires Read(json, pos, st, d, n, st1) && tl.Cons?
    requires Same(json, pos + n, st1, pos + n + 1, st1)
    requires ReadItems(json, pos + n + 1, st1, tl, n', st2)
    ensures ReadItems(json, pos, st, Cons(d, tl), n + 1 + n', st2)
  {
    hide Same;
    SameThrough(json, pos, st, pos + n, st1, pos + n + 1, st1);
    SameThrough(json, pos, st, pos + n + 1, st1, pos + n + 1 + n', st2);
    var d', tl' := Placed(d, st.next), PlacedItems(tl, st1.next);
    assert OldLast(st1.m, st.super) == st.next;
    FitsMoved(st1.m, st2.m, d, st.next, st.super, First(tl'));
  }

  lemma CommaInArray(json: seq<byte>, pos: nat, st: PState)
    requires Sound(st) && st.super != NULL && st.m[st.super].kind == ArrayKind && pos < |json| && json[pos] == COMMA
    ensures Same(json, pos, st, pos + 1, st)
  {
    RunStep(json, pos, st);
  }

  /** Opening a container makes its token the current parent. */
  lemma OpenRun(json: seq<byte>, pos: nat, st: PState, kind: Kind) returns (st1: PState)
    requires Sound(st) && TakesValue(st) && IsContainer(kind)
    requires pos < |json| && json[pos] == if kind == ObjectKind then LBRACE else LBRACKET
    ensures Sound(st1) && Same(json, pos, st, pos + 1, st1)
    ensures st1.super == st.next && st1.next == st.next + 1 && st1.root == if st.root == NULL then st.next else st.root
    ensures st1.root != NULL && st1.super != NULL && st1.super in st1.m
    ensures st1.m[st1.super] == NewToken(kind, [], 0).(parent := st.super)
    ensures Kept(st.m, st1.m, st.super, st.next, st.next, 1)
  {
    var token := NewToken(kind, [], 0);
    AddedKept(st, token);
    hide Added;
    RunStep(json, pos, st);
    st1 := Added(st, token).(super := st.next);
  }

  /** Closing it goes back to the parent it was opened under. */
  lemma CloseRun(json: seq<byte>, pos: nat, st: PState, kind: Kind, c: Ptr) returns (st1: PState)
    requires Sound(st) && st.super != NULL && IsContainer(kind) && c in st.m && st.m[c].kind == kind
    requires st.super == c || (!IsContainer(st.m[st.super].kind) && st.m[st.super].parent == c)
    requires pos < |json| && json[pos] == if kind == ObjectKind then RBRACE else RBRACKET
    ensures Sound(st1) && Same(json, pos, st, pos + 1, st1) && st1 == st.(super := st.m[c].parent)
  {
    assert Enclosing(st.m, c, kind) == c;
    assert Enclosing(st.m, st.super, kind) == c;
    RunStep(json, pos, st);
    st1 := st.(super := st.m[c].parent);
  }

  /** From the parts of an array to the array. */
  lemma ReadArr(json: seq<byte>, pos: nat, st: PState, p: Ptr, items: Docs, st1: PState, n: nat, st2: PState, st3: PState)
    requires Sound(st) && Sound(st1) && Sound(st2) && Sound(st3) && TakesValue(st)
    requires Same(json, pos, st, pos + 1, st1)
    requires st1.super == st.next && st1.next == st.next + 1 && st1.root == (if st.root == NULL then st.next else st.root)
    requires st1.super in st1.m && st1.m[st1.super] == NewToken(ArrayKind, [], 0).(parent := st.super)
    requires Kept(st.m, st1.m, st.super, st.next, st.next, 1)
    requires ReadItems(json, pos + 1, st1, items, n, st2)
    requires Same(json, pos + 1 + n, st2, pos + 1 + n + 1, st3) && st3 == st2.(super := st.super)
    ensures Read(json, pos, st, Arr(p, items), 1 + n + 1, st3)
  {
    hide Same;
    SameThrough(json, pos, st, pos + 1, st1, pos + 1 + n, st2);
    SameThrough(json, pos, st, pos + 1 + n, st2, pos + 1 + n + 1, st3);
  }

  lemma ItemsAfterGap(json: seq<byte>, pos: nat, st: PState, gap: nat, items: Docs, n: nat, st': PState)
    requires Same(json, pos, st, pos + gap, st) && ReadItems(json, pos + gap, st, items, n, st')
    ensures ReadItems(json, pos, st, items, gap + n, st')
  {
    hide Same;
    SameThrough(json, pos, st, pos + gap, st, pos + gap + n, st');
  }

  // ----- objects

  /** Members of an object, read one after the other; the last key is left as current parent. */
  ghost predicate ReadMembers(json: seq<byte>, pos: nat, st: PState, members: Members, n: nat, st': PState)
  {
    var members' := PlacedMembers(members, st.next);
    && members.MCons? && Sound(st) && Sound(st') && Same(json, pos, st, pos + n, st')
    && st'.super == LastKey(members') && st'.next == st.next + TokensMembers(members) && st'.root == st.root
    && FitsMembers(st'.m, members', st.super)
    && Kept(st.m, st'.m, st.super, FirstKey(members'), LastKey(members'), CountKeys(members'))
    && st'.super in st'.m && st'.m[st'.super].kind == StringKind && st'.m[st'.super].parent == st.super
  }

  ghost predicate InObject(st: PState)
  {
    st.super != NULL && st.super in st.m && st.m[st.super].kind == ObjectKind && st.root != NULL
  }

  /** The key string, space and its colon: the key token becomes the current parent. */
  lemma KeyRun(json: seq<byte>, pos: nat, st: PState, key: seq<Letter>, gap: seq<byte>) returns (st1: PState)
    requires Sound(st) && InObject(st) && Spelled(key) && Space(gap) && At(json, pos, StringChars(key) + gap + [COLON])
    ensures Sound(st1) && Same(json, pos, st, pos + |StringChars(key)| + |gap| + 1, st1)
    ensures st1.super == st.next && st1.next == st.next + 1 && st1.root == st.root && st1.super in st1.m
    ensures st1.m[st1.super] == NewToken(StringKind, TextOf(key), 0).(parent := st.super)
    ensures Kept(st.m, st1.m, st.super, st.next, st.next, 1)
  {
    hide Added, StringChars, TextOf, Same, Spelled, At, Kept, Sound, Space, Step;
    var n, token := |StringChars(key)|, NewToken(StringKind, TextOf(key), 0);
    KeyParts(json, pos, key, gap);
    AddedKept(st, token);
    NextPositive(st);
    StringRun(json, pos, st, key);
    var st0 := Added(st, token);
    SpaceRun(json, pos + n, st0, gap);
    SameThrough(json, pos, st, pos + n, st0, pos + n + |gap|, st0);
    st1 := ColonRun(json, pos + n + |gap|, st0);
    SameThrough(json, pos, st, pos + n + |gap|, st0, pos + n + |gap| + 1, st1);
  }

  lemma NextPositive(st: PState)
    requires Sound(st)
    ensures st.next > 0
  {
  }

  lemma KeyParts(json: seq<byte>, pos: nat, key: seq<Letter>, gap: seq<byte>)
    requires At(json, pos, StringChars(key) + gap + [COLON])
    ensures var n := |StringChars(key)|;
            && At(json, pos, StringChars(key)) && At(json, pos + n, gap)
            && pos + n + |gap| < |json| && json[pos + n + |gap|] == COLON
  {
    hide StringChars;
    var q := StringChars(key);
    assert q + gap + [COLON] + [] == q + gap + [COLON];
    AtSplit(json, pos, q + gap, COLON, []);
    AtParts(json, pos, q, gap);
  }

  /** A colon makes the last token the current parent. */
  lemma ColonRun(json: seq<byte>, pos: nat, st: PState) returns (st1: PState)
    requires Sound(st) && st.last != NULL && pos < |json| && json[pos] == COLON
    ensures st1 == st.(super := st.last) && Sound(st1) && Same(json, pos, st, pos + 1, st1)
  {
    RunStep(json, pos, st);
    st1 := st.(super := st.last);
  }

  lemma StringRun(json: seq<byte>, pos: nat, st: PState, ls: seq<Letter>)
    requires Sound(st) && Spelled(ls) && At(json, pos, StringChars(ls))
    ensures Same(json, pos, st, pos + |StringChars(ls)|, Added(st, NewToken(StringKind, TextOf(ls), 0)))
  {
    hide Added, StringAt, TextOf, StringChars, Same, Spelled, Spelling;
    StringReads(json, pos, ls);
    RunStep(json, pos, st);
  }

  lemma PlacedOne(k: Ptr, key: seq<byte>, val: Doc, lo: Ptr)
    ensures var one := PlacedMembers(MCons(k, key, val, MNil), lo);
            && one == MCons(lo, key, Placed(val, lo + 1), MNil)
            && FirstKey(one) == lo && LastKey(one) == lo && CountKeys(one) == 1 && Ref(one.val) == lo + 1
    ensures TokensMembers(MCons(k, key, val, MNil)) == 1 + Tokens(val)
  {
  }

  lemma ReadMembersOne(json: seq<byte>, pos: nat, st: PState, k: Ptr, key: seq<byte>, val: Doc, n: nat, st1: PState, n': nat, st2: PState)
    requires Sound(st) && InObject(st) && Sound(st1)
    requires Same(json, pos, st, pos + n, st1)
    requires st1.super == st.next && st1.next == st.next + 1 && st1.root == st.root && st1.super in st1.m
    requires st1.m[st1.super] == NewToken(StringKind, key, 0).(parent := st.super)
    requires Kept(st.m, st1.m, st.super, st.next, st.next, 1)
    requires Read(json, pos + n, st1, val, n', st2)
    ensures ReadMembers(json, pos, st, MCons(k, key, val, MNil), n + n', st2)
  {
    hide Same, Sound, Fits, Kept, Placed, Tokens, PlacedMembers, TokensMembers, LastKey, CountKeys, FitsMembers;
    PlacedOne(k, key, val, st.next);
    KeyCell(json, pos + n, st, st1, val, n', st2);
    OneKept(st, st1, st2);
    OneFits(st, st2, k, key, val);
    SameThrough(json, pos, st, pos + n, st1, pos + n + n', st2);
  }

  /** The key token after its value was hung under it. */
  lemma KeyCell(json: seq<byte>, pos: nat, st: PState, st1: PState, val: Doc, n: nat, st2: PState)
    requires Sound(st) && Sound(st1) && st1.super == st.next && st1.next == st.next + 1 && st1.root == st.root && st.root != NULL
    requires st1.super in st1.m && Read(json, pos, st1, val, n, st2) && st1.m[st1.super].kind == StringKind && st1.m[st1.super].child == NULL
    ensures Sound(st2) && Same(json, pos, st1, pos + n, st2) && st2.super == st.next != NULL && st2.next == st.next + 1 + Tokens(val)
    ensures st2.root == st.root && st.next in st2.m
    ensures st2.m[st.next] == st1.m[st.next].(child := st1.next, last := st1.next)
    ensures forall p :: p in st1.m && p != st.next ==> p in st2.m && st2.m[p] == st1.m[p]
    ensures Fits(st2.m, Placed(val, st.next + 1), st.next, NULL)
  {
    hide Same, Fits, Placed;
  }

  lemma OneKept(st: PState, st1: PState, st2: PState)
    requires Sound(st) && Kept(st.m, st1.m, st.super, st.next, st.next, 1)
    requires forall p :: p in st1.m && p != st.next ==> p in st2.m && st2.m[p] == st1.m[p]
    ensures Kept(st.m, st2.m, st.super, st.next, st.next, 1)
  {
    assert forall p :: p in st.m ==> p != st.next && st2.m[p] == st1.m[p];
  }

  lemma OneFits(st: PState, st2: PState, k: Ptr, key: seq<byte>, val: Doc)
    requires st.next != NULL && st.next in st2.m && Fits(st2.m, Placed(val, st.next + 1), st.next, NULL)
    requires st2.m[st.next] == Token(StringKind, key, 0, st.next + 1, NULL, st.next + 1, st.super, 0)
    ensures FitsMembers(st2.m, PlacedMembers(MCons(k, key, val, MNil), st.next), st.super)
  {
    PlacedOne(k, key, val, st.next);
    hide Fits, Placed, PlacedMembers;
  }

  lemma CommaAfterMember(json: seq<byte>, pos: nat, st: PState) returns (st1: PState)
    requires Sound(st) && st.super != NULL && st.m[st.super].kind == StringKind && pos < |json| && json[pos] == COMMA
    ensures st1 == st.(super := st.m[st.super].parent) && Sound(st1) && Same(json, pos, st, pos + 1, st1)
  {
    RunStep(json, pos, st);
    st1 := st.(super := st.m[st.super].parent);
  }

  /** One member, a comma, and the members after it. */
  lemma ReadMembersCons(json: seq<byte>, pos: nat, st: PState, k: Ptr, key: seq<byte>, val: Doc, n: nat, st1: PState, st2: PState,
                        tl: Members, n': nat, st3: PState)
    requires InObject(st) && ReadMembers(json, pos, st, MCons(k, key, val, MNil), n, st1)
    requires st2 == st1.(super := st.super) && Sound(st2) && Same(json, pos + n, st1, pos + n + 1, st2)
    requires ReadMembers(json, pos + n + 1, st2, tl, n', st3)
    ensures ReadMembers(json, pos, st, MCons(k, key, val, tl), n + 1 + n', st3)
  {
    PlacedOne(k, key, val, st.next);
    hide Same;
    SameThrough(json, pos, st, pos + n, st1, pos + n + 1, st2);
    SameThrough(json, pos, st, pos + n + 1, st2, pos + n + 1 + n', st3);
    var tl' := PlacedMembers(tl, st1.next);
    assert OldLast(st2.m, st.super) == st.next;
    assert Fits(st1.m, Placed(val, st.next + 1), st.next, NULL);
    FitsFrame(st1.m, st3.m, val, st.next + 1, st.next, NULL);
  }

  lemma ReadObj(json: seq<byte>, pos: nat, st: PState, p: Ptr, members: Members, st1: PState, n: nat, st2: PState, st3: PState)
    requires Sound(st) && Sound(st1) && Sound(st2) && Sound(st3) && TakesValue(st)
    requires Same(json, pos, st, pos + 1, st1)
    requires st1.super == st.next && st1.next == st.next + 1 && st1.root == (if st.root == NULL then st.next else st.root)
    requires st1.super in st1.m && st1.m[st1.super] == NewToken(ObjectKind, [], 0).(parent := st.super)
    requires Kept(st.m, st1.m, st.super, st.next, st.next, 1)
    requires ReadMembers(json, pos + 1, st1, members, n, st2)
    requires Same(json, pos + 1 + n, st2, pos + 1 + n + 1, st3) && st3 == st2.(super := st.super)
    ensures Read(json, pos, st, Obj(p, members), 1 + n + 1, st3)
  {
    hide Same;
    SameThrough(json, pos, st, pos + 1, st1, pos + 1 + n, st2);
    SameThrough(json, pos, st, pos + 1 + n, st2, pos + 1 + n + 1, st3);
  }

  lemma MembersAfterGap(json: seq<byte>, pos: nat, st: PState, gap: nat, members: Members, n: nat, st': PState)
    requires Same(json, pos, st, pos + gap, st) && ReadMembers(json, pos + gap, st, members, n, st')
    ensures ReadMembers(json, pos, st, members, gap + n, st')
  {
    hide Same;
    SameThrough(json, pos, st, pos + gap, st, pos + gap + n, st');
  }

  lemma ReadEmptyObj(json: seq<byte>, pos: nat, st: PState, p: Ptr, st1: PState, gap: nat, st3: PState)
    requires Sound(st) && Sound(st1) && Sound(st3) && TakesValue(st)
    requires Same(json, pos, st, pos + 1, st1)
    requires st1.super == st.next && st1.next == st.next + 1 && st1.root == (if st.root == NULL then st.next else st.root)
    requires st1.super in st1.m && st1.m[st1.super] == NewToken(ObjectKind, [], 0).(parent := st.super)
    requires Kept(st.m, st1.m, st.super, st.next, st.next, 1)
    requires Same(json, pos + 1, st1, pos + 1 + gap, st1) && Same(json, pos + 1 + gap, st1, pos + 1 + gap + 1, st3)
    requires st3 == st1.(super := st.super)
    ensures Read(json, pos, st, Obj(p, MNil), 1 + gap + 1, st3)
  {
    hide Same;
    SameThrough(json, pos, st, pos + 1, st1, pos + 1 + gap, st1);
    SameThrough(json, pos, st, pos + 1 + gap, st1, pos + 1 + gap + 1, st3);
    assert Placed(Obj(p, MNil), st.next) == Obj(st.next, MNil);
    assert Tokens(Obj(p, MNil)) == 1;
    assert CountKeys(MNil) == 0 && LastKey(MNil) == NULL && FirstKey(MNil) == NULL;
    assert Fits(st3.m, Obj(st.next, MNil), st.super, NULL);
  }

  // ----- whole values

  lemma {:induction false} ReadValue(json: seq<byte>, pos: nat, st: PState, v: Value) returns (st': PState)
    requires Sound(st) && TakesValue(st) && Grammatical(v)
    requires At(json, pos, Chars(v)) && NoDigitAt(json, pos + |Chars(v)|)
    ensures Read(json, pos, st, Meaning(v), |Chars(v)|, st')
    decreases v, 0
  {
    hide Read, Sound, At, NoDigitAt, Space, TakesValue;
    if IsLeaf(v) {
      st' := ReadLeaf(json, pos, st, v);
    } else if v.Array? {
      st' := ReadArray(json, pos, st, v);
    } else {
      st' := ReadObject(json, pos, st, v);
    }
  }

  lemma {:induction false} ReadArray(json: seq<byte>, pos: nat, st: PState, v: Value) returns (st': PState)
    requires Sound(st) && TakesValue(st) && Grammatical(v) && v.Array? && At(json, pos, Chars(v))
    ensures Read(json, pos, st, Meaning(v), |Chars(v)|, st')
    decreases v.items, 1
  {
    hide Read, ReadItems, Kept, Sound, Same, At, NoDigitAt, Space, Bytes;
    MarkBytes();
    var gap, text := v.gap, ItemChars(v.items);
    AtFramed(json, pos, LBRACKET, gap + text, RBRACKET);
    AtParts(json, pos + 1, gap, text);
    var st1 := OpenRun(json, pos, st, ArrayKind);
    SpaceRun(json, pos + 1, st1, gap);
    var st2 := ReadAllItems(json, pos + 1 + |gap|, st1, v.items);
    var items := MeaningItems(v.items);
    ItemsAfterGap(json, pos + 1, st1, |gap|, items, |text|, st2);
    var n := |gap| + |text|;
    AfterItems(json, pos + 1, st1, items, n, st2);
    st' := CloseRun(json, pos + 1 + n, st2, ArrayKind, st1.super);
    ReadArr(json, pos, st, NULL, items, st1, n, st2, st');
  }

  lemma {:induction false} ReadObject(json: seq<byte>, pos: nat, st: PState, v: Value) returns (st': PState)
    requires Sound(st) && TakesValue(st) && Grammatical(v) && v.Object? && At(json, pos, Chars(v))
    ensures Read(json, pos, st, Meaning(v), |Chars(v)|, st')
    decreases v.members, 2
  {
    hide Read, ReadMembers, Kept, Sound, Same, At, NoDigitAt, Space, Bytes, PairChars, MeaningPairs, GrammaticalPairs, TakesValue;
    MarkBytes();
    NoPairs();
    var gap, text := v.gap, PairChars(v.members);
    AtFramed(json, pos, LBRACE, gap + text, RBRACE);
    AtParts(json, pos + 1, gap, text);
    var st1 := OpenRun(json, pos, st, ObjectKind);
    SpaceRun(json, pos + 1, st1, gap);
    if v.members.PNil? {
      st' := CloseRun(json, pos + 1 + |gap|, st1, ObjectKind, st1.super);
      ReadEmptyObj(json, pos, st, NULL, st1, |gap|, st');
    } else {
      var st2 := ReadAllMembers(json, pos + 1 + |gap|, st1, v.members);
      st' := ObjectCloses(json, pos, st, st1, |gap|, MeaningPairs(v.members), |text|, st2);
    }
  }

  lemma NoPairs()
    ensures GrammaticalPairs(PNil) && PairChars(PNil) == [] && MeaningPairs(PNil) == MNil
  {
  }

  /** From the members to the closing brace and the object. */
  lemma ObjectCloses(json: seq<byte>, pos: nat, st: PState, st1: PState, gap: nat, members: Members, n: nat, st2: PState)
    returns (st3: PState)
    requires Sound(st) && Sound(st1) && TakesValue(st) && Same(json, pos, st, pos + 1, st1)
    requires st1.super == st.next && st1.next == st.next + 1 && st1.root == (if st.root == NULL then st.next else st.root)
    requires InObject(st1) && st1.m[st1.super] == NewToken(ObjectKind, [], 0).(parent := st.super)
    requires Kept(st.m, st1.m, st.super, st.next, st.next, 1)
    requires Same(json, pos + 1, st1, pos + 1 + gap, st1) && ReadMembers(json, pos + 1 + gap, st1, members, n, st2)
    requires pos + 1 + gap + n < |json| && json[pos + 1 + gap + n] == RBRACE
    ensures Read(json, pos, st, Obj(NULL, members), 1 + (gap + n) + 1, st3)
  {
    hide Read, ReadMembers, Kept, Sound, Same, TakesValue;
    MembersAfterGap(json, pos + 1, st1, gap, members, n, st2);
    AfterMembers(json, pos + 1, st1, members, gap + n, st2);
    st3 := CloseRun(json, pos + 1 + (gap + n), st2, ObjectKind, st1.super);
    ReadObj(json, pos, st, NULL, members, st1, gap + n, st2, st3);
  }

  lemma AfterItems(json: seq<byte>, pos: nat, st: PState, items: Docs, n: nat, st': PState)
    requires ReadItems(json, pos, st, items, n, st') && st.super != NULL
    ensures Sound(st') && st'.super == st.super && st.super in st.m && st.super in st'.m
    ensures st'.m[st.super].kind == st.m[st.super].kind && st'.m[st.super].parent == st.m[st.super].parent
  {
  }

  lemma AfterItem(json: seq<byte>, pos: nat, st: PState, d: Doc, n: nat, st': PState)
    requires Read(json, pos, st, d, n, st') && st.super != NULL && st.root != NULL
    ensures Sound(st') && st'.super == st.super && st'.root == st.root && st.super in st.m && st.super in st'.m
    ensures st'.m[st.super].kind == st.m[st.super].kind
  {
  }

  lemma AfterMembers(json: seq<byte>, pos: nat, st: PState, members: Members, n: nat, st': PState)
    requires ReadMembers(json, pos, st, members, n, st') && InObject(st)
    ensures Sound(st') && st'.super != NULL && st.super in st'.m && st'.super in st'.m && st'.root == st.root
    ensures st'.m[st.super].kind == st.m[st.super].kind && st'.m[st.super].parent == st.m[st.super].parent
    ensures st'.m[st'.super].kind == StringKind && st'.m[st'.super].parent == st.super
  {
  }

  lemma AtFramed(json: seq<byte>, pos: nat, a: byte, text: seq<byte>, b: byte)
    requires At(json, pos, [a] + text + [b])
    ensures pos + 1 + |text| < |json| && json[pos] == a && At(json, pos + 1, text) && json[pos + 1 + |text|] == b
  {
    AtParts(json, pos, [a] + text, [b]);
    AtParts(json, pos, [a], text);
    assert json[pos..pos + 1][0] == a;
    assert json[pos + 1 + |text|..pos + 1 + |text| + 1][0] == b;
  }

  /** A value and the space around it, where no digit follows. */
  lemma {:induction false} ReadWithSpace(json: seq<byte>, pos: nat, st: PState, before: seq<byte>, v: Value, after: seq<byte>)
    returns (st': PState)
    requires Sound(st) && TakesValue(st) && Grammatical(v) && Space(before) && Space(after)
    requires At(json, pos, before + Chars(v) + after) && NoDigitAt(json, pos + |before + Chars(v) + after|)
    ensures Read(json, pos, st, Meaning(v), |before + Chars(v) + after|, st')
    decreases v, 1
  {
    hide Read, Sound, At, NoDigitAt, Space, TakesValue, Chars, Grammatical, Meaning;
    var n := |Chars(v)|;
    AtParts(json, pos, before + Chars(v), after);
    AtParts(json, pos, before, Chars(v));
    NoDigitBefore(json, pos + |before| + n, after);
    st' := ReadValue(json, pos + |before|, st, v);
    ReadSpaced(json, pos, st, before, Meaning(v), n, after, st');
  }

  lemma {:induction false} ReadAllItems(json: seq<byte>, pos: nat, st: PState, items: Values) returns (st': PState)
    requires Sound(st) && st.super != NULL && st.super in st.m && st.m[st.super].kind == ArrayKind && st.root != NULL
    requires items.VNil? ==> st.m[st.super].child == NULL && st.m[st.super].last == NULL
    requires GrammaticalItems(items) && At(json, pos, ItemChars(items))
    requires pos + |ItemChars(items)| < |json| && json[pos + |ItemChars(items)|] == RBRACKET
    ensures ReadItems(json, pos, st, MeaningItems(items), |ItemChars(items)|, st')
    decreases items, 0
  {
    hide Read, Sound, Same, At, Space, Bytes, ReadItems, Chars;
    if items.VNil? {
      st' := st;
      ReadNoItems(json, pos, st);
    } else {
      var VCons(before, v, after, tl) := items;
      MarkBytes();
      var one := before + Chars(v) + after;
      var n := |one|;
      if tl.VNil? {
        st' := ReadWithSpace(json, pos, st, before, v, after);
        ReadItemsOne(json, pos, st, Meaning(v), n, st');
      } else {
        AtSplit(json, pos, one, COMMA, ItemChars(tl));
        var st1 := ReadWithSpace(json, pos, st, before, v, after);
        AfterItem(json, pos, st, Meaning(v), n, st1);
        CommaInArray(json, pos + n, st1);
        st' := ReadAllItems(json, pos + n + 1, st1, tl);
        ReadItemsCons(json, pos, st, Meaning(v), n, st1, MeaningItems(tl), |ItemChars(tl)|, st');
      }
    }
  }

  lemma ReadNoItems(json: seq<byte>, pos: nat, st: PState)
    requires Sound(st) && st.super != NULL && st.super in st.m
    requires st.m[st.super].child == NULL && st.m[st.super].last == NULL
    ensures ReadItems(json, pos, st, Nil, 0, st)
  {
  }

  lemma ReadItemsOne(json: seq<byte>, pos: nat, st: PState, d: Doc, n: nat, st': PState)
    requires Read(json, pos, st, d, n, st') && st.super != NULL && st.root != NULL
    ensures ReadItems(json, pos, st, Cons(d, Nil), n, st')
  {
    hide Same;
    PlacedSingle(d, st.next);
    hide PlacedItems, TokensItems, Last, Count;
    assert FitsItems(st'.m, Cons(Placed(d, st.next), Nil), st.super);
  }

  lemma PlacedSingle(d: Doc, lo: Ptr)
    ensures var one := PlacedItems(Cons(d, Nil), lo);
            one == Cons(Placed(d, lo), Nil) && First(one) == lo && Last(one) == lo && Count(one) == 1
    ensures TokensItems(Cons(d, Nil)) == Tokens(d)
  {
  }

  lemma AtSplit(json: seq<byte>, pos: nat, a: seq<byte>, c: byte, b: seq<byte>)
    requires At(json, pos, a + [c] + b)
    ensures At(json, pos, a) && At(json, pos + |a| + 1, b) && pos + |a| < |json| && json[pos + |a|] == c
  {
    AtParts(json, pos, a + [c], b);
    AtParts(json, pos, a, [c]);
    assert json[pos + |a|..pos + |a| + 1][0] == c;
  }

  lemma {:induction false} ReadAllMembers(json: seq<byte>, pos: nat, st: PState, members: Pairs) returns (st': PState)
    requires Sound(st) && InObject(st) && members.PCons? && GrammaticalPairs(members)
    requires At(json, pos, PairChars(members))
    requires pos + |PairChars(members)| < |json| && json[pos + |PairChars(members)|] == RBRACE
    ensures ReadMembers(json, pos, st, MeaningPairs(members), |PairChars(members)|, st')
    decreases members, 1
  {
    hide Read, ReadMembers, Sound, Same, At, PairOne, Bytes, Space, Spelled, TextOf, Grammatical, Meaning;
    MarkBytes();
    var one, key, val, tl := PairOne(members), TextOf(members.key), Meaning(members.val), members.tl;
    if tl.PNil? {
      st' := ReadOneMember(json, pos, st, members);
    } else {
      AtSplit(json, pos, one, COMMA, PairChars(tl));
      var st1 := ReadOneMember(json, pos, st, members);
      AfterMembers(json, pos, st, MCons(NULL, key, val, MNil), |one|, st1);
      var st2 := CommaAfterMember(json, pos + |one|, st1);
      st' := ReadAllMembers(json, pos + |one| + 1, st2, tl);
      ReadMembersCons(json, pos, st, NULL, key, val, |one|, st1, st2, MeaningPairs(tl), |PairChars(tl)|, st');
    }
  }

  lemma {:induction false} ReadOneMember(json: seq<byte>, pos: nat, st: PState, members: Pairs) returns (st': PState)
    requires Sound(st) && InObject(st) && members.PCons? && GrammaticalPairs(members)
    requires At(json, pos, PairOne(members)) && NoDigitAt(json, pos + |PairOne(members)|)
    ensures ReadMembers(json, pos, st, MCons(NULL, TextOf(members.key), Meaning(members.val), MNil), |PairOne(members)|, st')
    decreases members, 0
  {
    hide Read, ReadMembers, Sound, Same, At, Bytes, Space, Spelled, TextOf, Grammatical, Meaning, StringChars, Chars, NoDigitAt;
    MarkBytes();
    var PCons(before, key, afterKey, beforeVal, v, after, tl) := members;
    var head, rest := StringChars(key) + afterKey + [COLON], beforeVal + Chars(v) + after;
    AtParts(json, pos, before + head, rest);
    AtParts(json, pos, before, head);
    SpaceRun(json, pos, st, before);
    var st1 := KeyRun(json, pos + |before|, st, key, afterKey);
    SameThrough(json, pos, st, pos + |before|, st, pos + |before| + |head|, st1);
    KeyTakes(st1);
    st' := ReadWithSpace(json, pos + |before| + |head|, st1, beforeVal, v, after);
    ReadMembersOne(json, pos, st, NULL, TextOf(key), Meaning(v), |before| + |head|, st1, |rest|, st');
  }

  lemma KeyTakes(st: PState)
    requires st.super in st.m && st.m[st.super].kind == StringKind
    ensures TakesValue(st)
  {
  }

  /** Every JSON text is accepted and builds the document it stands for, correctly linked, whatever
      white space is in it and however its strings are written. */
  lemma ParseText(before: seq<byte>, v: Value, after: seq<byte>)
    requires Grammatical(v) && Space(before) && Space(after)
    ensures var r := Run(Text(before, v, after), 0, INITIAL);
            r.Accepted? && r.st.root == 1 && Fits(r.st.m, Placed(Meaning(v), 1), NULL, NULL)
  {
    hide Chars, Grammatical, Meaning, Space;
    var json := Text(before, v, after);
    assert At(json, 0, json);
    var st' := ReadWithSpace(json, 0, INITIAL, before, v, after);
  }

  /** Nothing else starts a token: any other character is refused where a token may start. */
  lemma OnlyTokens(json: seq<byte>, pos: nat, st: PState)
    requires Sound(st) && pos < |json| && Step(json, pos, st).Go?
    ensures var c := json[pos] as char; c in "{}[]\",:" || c in " \t\n\r" || c in "-tfn" || c in DIGITS
  {
    hide Added, OpenStep, CloseStep, StringStep, PrimitiveStep;
    DigitIs(json[pos] as char);
    Marks(json[pos] as char);
  }

  /** Directly in an object no value and no container may stand: its members start with a string. */
  lemma KeysAreStrings(json: seq<byte>, pos: nat, st: PState)
    requires Sound(st) && InObject(st) && pos < |json|
    ensures var c := json[pos] as char; c in "{[" || c in "-tfn" || c in DIGITS ==> Step(json, pos, st).Fail?
  {
    hide Added;
    DigitIs(json[pos] as char);
    Marks(json[pos] as char);
    assert json[pos] as char in "{[" <==> json[pos] == LBRACE || json[pos] == LBRACKET;
  }

  lemma Marks(c: char)
    ensures c in "{}[]\",:" <==> c == '{' || c == '}' || c == '[' || c == ']' || c == '"' || c == ',' || c == ':'
    ensures c in " \t\n\r" <==> c == ' ' || c == '\t' || c == '\n' || c == '\r'
    ensures c in "-tfn" <==> c == '-' || c == 't' || c == 'f' || c == 'n'
  {
  }
}
