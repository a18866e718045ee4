/** The printer of misc/json.c: a loop over five states that walks child, sibling and parent
    links without recursion, compared with the plain recursive printer. */
module JsonPrinter {
  import opened Common
  import opened Sequences
  import opened JsonString
  import opened JsonTree

  // ----- when the walk succeeds

  /** A container with something in it: leaving it goes through the closing state. */
  ghost predicate Big(d: Doc)
  {
    (d.Arr? && d.items.Cons?) || (d.Obj? && d.members.MCons?)
  }

  ghost predicate IsString(d: Doc)
  {
    d.Leaf? && d.v.Str?
  }

  /** No array of the document has a string directly after a non-empty container. */
  ghost predicate Printable(d: Doc)
  {
    match d
    case Leaf(_, _) => true
    case Arr(_, items) => PrintableItems(items, false)
    case Obj(_, members) => PrintableMembers(members)
  }

  ghost predicate PrintableItems(items: Docs, afterBig: bool)
  {
    items.Cons? ==>
      !(afterBig && IsString(items.hd)) && Printable(items.hd) && PrintableItems(items.tl, Big(items.hd))
  }

  ghost predicate PrintableMembers(members: Members)
  {
    members.MCons? ==> Printable(members.val) && PrintableMembers(members.tl)
  }

  /** Not every document prints: [[1],"s"] does not, for any string s. */
  lemma RefusedDocument(s: seq<byte>)
    ensures !Printable(Arr(1, Cons(Arr(2, Cons(Leaf(3, Num(1)), Nil)), Cons(Leaf(4, Str(s)), Nil))))
  {
    var inner := Arr(2, Cons(Leaf(3, Num(1)), Nil));
    var rest := Cons(Leaf(4, Str(s)), Nil);
    assert !PrintableItems(rest, Big(inner));
    assert !PrintableItems(Cons(inner, rest), false);
  }

  // ----- what is left to do

  /** What follows a value: the rest of the enclosing array or object, and of those around it. */
  datatype Rest =
    | Top
    | InArr(a: Ptr, items: Docs, up: Rest)
    | InObj(o: Ptr, k: Ptr, members: Members, up: Rest)
    | EndObj(o: Ptr, up: Rest)

  ghost function Text(k: Rest, ascii: bool): seq<byte>
    decreases k, 0
  {
    match k
    case Top => []
    case InArr(a, items, up) => ItemsText(items, ascii) + [RBRACKET] + Text(up, ascii)
    case InObj(o, _, members, up) => MembersText(members, ascii) + [RBRACE] + Text(up, ascii)
    case EndObj(_, up) => [RBRACE] + Text(up, ascii)
  }

  ghost function ItemsText(items: Docs, ascii: bool): seq<byte>
  {
    if items.Nil? then [] else [COMMA] + Print(items.hd, ascii) + ItemsText(items.tl, ascii)
  }

  ghost function MembersText(members: Members, ascii: bool): seq<byte>
  {
    if members.MNil? then [] else [COMMA] + PrintMember(members.key, members.val, ascii) + MembersText(members.tl, ascii)
  }

  /** Whether the rest prints, after a value that was, or was not, a non-empty container. */
  ghost predicate Fine(k: Rest, afterBig: bool)
  {
    match k
    case Top => true
    case InArr(_, items, up) => PrintableItems(items, afterBig) && Fine(up, true)
    case InObj(_, _, members, up) => PrintableMembers(members) && Fine(up, true)
    case EndObj(_, up) => Fine(up, true)
  }

  ghost function ParentOf(k: Rest): Ptr
  {
    match k
    case Top => NULL
    case InArr(a, _, _) => a
    case InObj(_, key, _, _) => key
    case EndObj(o, _) => o
  }

  ghost function SiblingOf(k: Rest): Ptr
  {
    if k.InArr? then First(k.items) else NULL
  }

  ghost predicate FitsRest(m: Memory, k: Rest)
  {
    match k
    case Top => true
    case InArr(a, items, up) =>
      && a != NULL && a in m && m[a].kind == ArrayKind && m[a].parent == ParentOf(up) && m[a].sibling == SiblingOf(up)
      && FitsItems(m, items, a) && FitsRest(m, up) && !up.EndObj?
    case InObj(o, key, members, up) =>
      && key != NULL && key in m && m[key].kind == StringKind && m[key].parent == o && m[key].sibling == FirstKey(members)
      && o != NULL && o in m && m[o].kind == ObjectKind && m[o].parent == ParentOf(up) && m[o].sibling == SiblingOf(up)
      && FitsMembers(m, members, o) && FitsRest(m, up) && !up.EndObj?
    case EndObj(o, up) =>
      && o != NULL && o in m && m[o].kind == ObjectKind && m[o].parent == ParentOf(up) && m[o].sibling == SiblingOf(up)
      && FitsRest(m, up) && !up.EndObj?
  }

  // ----- the loop

  datatype State = OpenObject | ProcessKey | OpenArray | ProcessPrimitive | CloseContainer

  function StateFor(kind: Kind): State
  {
    if kind == ObjectKind then OpenObject else if kind == ArrayKind then OpenArray else ProcessPrimitive
  }

  /** Where the walk is. */
  datatype Position =
    | AtValue(d: Doc, k: Rest)
    | AtKey(o: Ptr, members: Members, up: Rest)
    | Closing(k: Rest)
    | Stuck

  ghost function Remaining(pos: Position, ascii: bool): seq<byte>
  {
    match pos
    case AtValue(d, k) => Print(d, ascii) + Text(k, ascii)
    case AtKey(o, members, up) =>
      if members.MNil? then []
      else PrintMember(members.key, members.val, ascii) + Text(InObj(o, members.k, members.tl, up), ascii)
    case Closing(k) => Text(k, ascii)
    case Stuck => []
  }

  ghost predicate WillPrint(pos: Position)
  {
    match pos
    case AtValue(d, k) => Printable(d) && Fine(k, Big(d))
    case AtKey(o, members, up) => PrintableMembers(members) && Fine(up, true)
    case Closing(k) => Fine(k, true)
    case Stuck => false
  }

  /** The state and token pointer of the loop agree with the position. */
  ghost predicate Here(m: Memory, pos: Position, state: State, token: Ptr)
  {
    match pos
    case AtValue(d, k) =>
      token == Ref(d) && Fits(m, d, ParentOf(k), SiblingOf(k)) && FitsRest(m, k) && !k.EndObj? && state == StateFor(m[token].kind)
    case AtKey(o, members, up) =>
      && members.MCons? && token == members.k && FitsMembers(m, members, o) && state == ProcessKey
      && o != NULL && o in m && m[o].kind == ObjectKind && m[o].parent == ParentOf(up) && m[o].sibling == SiblingOf(up)
      && FitsRest(m, up) && !up.EndObj?
    case Closing(k) =>
      && token == ParentOf(k) && FitsRest(m, k) && SiblingOf(k) == NULL && state == CloseContainer
      && (k.InArr? ==> k.items.Nil?) && !k.EndObj?
    case Stuck =>
      token != NULL && token in m && m[token].kind == StringKind && m[token].child == NULL && state == ProcessKey
  }

  /** After a value with nothing left to print in it: on to the sibling or up to the parent. */
  ghost function After(k: Rest): Position
  {
    if k.InArr? && k.items.Cons? then AtValue(k.items.hd, InArr(k.a, k.items.tl, k.up)) else Closing(k)
  }

  lemma ItemsNext(items: Docs, a: Ptr, up: Rest, ascii: bool)
    requires items.Cons?
    ensures Text(InArr(a, items, up), ascii) == [COMMA] + (Print(items.hd, ascii) + Text(InArr(a, items.tl, up), ascii))
    ensures Fine(InArr(a, items, up), false) == (Printable(items.hd) && Fine(InArr(a, items.tl, up), Big(items.hd)))
    ensures Fine(InArr(a, items, up), true) == (!IsString(items.hd) && Fine(InArr(a, items, up), false))
  {
  }

  lemma MembersNext(o: Ptr, k: Ptr, members: Members, up: Rest, ascii: bool)
    requires members.MCons?
    ensures Text(InObj(o, k, members, up), ascii) == [COMMA] + Remaining(AtKey(o, members, up), ascii)
  {
    hide PrintMember;
    Nest([COMMA], PrintMember(members.key, members.val, ascii), MembersText(members.tl, ascii), [RBRACE], Text(up, ascii));
  }

  method PrimitiveText(t: Token, ascii: bool) returns (r: seq<byte>)
    ensures t.kind == StringKind ==> r == ScalarText(Str(t.text), ascii)
    ensures t.kind == BoolKind ==> r == ScalarText(Bool(t.number != 0), ascii)
    ensures t.kind == NullKind ==> r == ScalarText(Null, ascii)
    ensures t.kind == NumberKind ==> r == NumberText(t.number)
  {
    r := [];
    match t.kind
    case StringKind =>
      r := [QUOTE];
      r := ProcessEscapes(t.text, r, ascii);
      r := r + [QUOTE];
    case BoolKind => r := if t.number != 0 then TRUE_TEXT else FALSE_TEXT;
    case NullKind => r := NULL_TEXT;
    case NumberKind => r := NumberText(t.number);
    case _ =>
  }

  /** Moves on from a scalar or an empty container. */
  method Advance(m: Memory, token0: Ptr, out0: seq<byte>, ghost d: Doc, ghost k: Rest, ghost ascii: bool)
    returns (token: Ptr, state: State, out: seq<byte>)
    requires token0 == Ref(d) && Fits(m, d, ParentOf(k), SiblingOf(k)) && FitsRest(m, k) && !k.EndObj? && !Big(d)
    ensures Here(m, After(k), state, token)
    ensures out + Remaining(After(k), ascii) == out0 + Text(k, ascii)
    ensures WillPrint(After(k)) == Fine(k, false)
  {
    hide Fits, FitsItems, FitsMembers, Print, Printable;
    TokenOf(m, d, ParentOf(k), SiblingOf(k));
    if k.InArr? {
      FirstItem(m, k.items, k.a);
      if k.items.Cons? {
        ItemsNext(k.items, k.a, k.up, ascii);
      }
    }
    out := out0;
    if m[token0].sibling == NULL {
      token := m[token0].parent;
      state := CloseContainer;
    } else {
      if m[token0].parent != NULL && m[m[token0].parent].kind == ArrayKind {
        out := out + [COMMA];
      }
      token := m[token0].sibling;
      state := StateFor(m[token].kind);
    }
  }

  /** Opens a container: an empty one is closed at once, otherwise its first child is next. */
  ghost function Inside(d: Doc, k: Rest): Position
  {
    match d
    case Arr(p, Cons(first, tl)) => AtValue(first, InArr(p, tl, k))
    case Obj(p, MCons(_, _, _, _)) => AtKey(p, d.members, k)
    case _ => After(k)
  }

  lemma OpenArrayText(p: Ptr, items: Docs, k: Rest, ascii: bool)
    requires items.Cons?
    ensures Remaining(AtValue(Arr(p, items), k), ascii) == [LBRACKET] + Remaining(Inside(Arr(p, items), k), ascii)
    ensures WillPrint(AtValue(Arr(p, items), k)) == WillPrint(Inside(Arr(p, items), k))
  {
    PrintItemsText(items, ascii);
    assert PrintableItems(items, false) == (Printable(items.hd) && PrintableItems(items.tl, Big(items.hd)));
    assert Print(Arr(p, items), ascii) == [LBRACKET] + PrintItems(items, ascii) + [RBRACKET];
    Nest([LBRACKET], Print(items.hd, ascii), ItemsText(items.tl, ascii), [RBRACKET], Text(k, ascii));
  }

  lemma OpenObjectText(p: Ptr, members: Members, k: Rest, ascii: bool)
    requires members.MCons?
    ensures Remaining(AtValue(Obj(p, members), k), ascii) == [LBRACE] + Remaining(Inside(Obj(p, members), k), ascii)
    ensures WillPrint(AtValue(Obj(p, members), k)) == WillPrint(Inside(Obj(p, members), k))
  {
    PrintMembersText(members, ascii);
    assert Print(Obj(p, members), ascii) == [LBRACE] + PrintMembers(members, ascii) + [RBRACE];
    hide PrintMember;
    Nest([LBRACE], PrintMember(members.key, members.val, ascii), MembersText(members.tl, ascii), [RBRACE], Text(k, ascii));
  }

  lemma EmptyText(d: Doc, ascii: bool)
    requires (d.Arr? && d.items.Nil?) || (d.Obj? && d.members.MNil?)
    ensures Printable(d) && !Big(d)
    ensures Print(d, ascii) == if d.Arr? then [LBRACKET] + [RBRACKET] else [LBRACE] + [RBRACE]
  {
  }

  lemma {:induction false} PrintItemsText(items: Docs, ascii: bool)
    requires items.Cons?
    ensures PrintItems(items, ascii) == Print(items.hd, ascii) + ItemsText(items.tl, ascii)
  {
    if items.tl.Cons? {
      PrintItemsText(items.tl, ascii);
      Assoc(Print(items.hd, ascii), [COMMA], PrintItems(items.tl, ascii));
      Assoc([COMMA], Print(items.tl.hd, ascii), ItemsText(items.tl.tl, ascii));
    }
  }

  lemma {:induction false} PrintMembersText(members: Members, ascii: bool)
    requires members.MCons?
    ensures PrintMembers(members, ascii) == PrintMember(members.key, members.val, ascii) + MembersText(members.tl, ascii)
  {
    if members.tl.MCons? {
      hide PrintMember;
      PrintMembersText(members.tl, ascii);
      Assoc(PrintMember(members.key, members.val, ascii), [COMMA], PrintMembers(members.tl, ascii));
      Assoc([COMMA], PrintMember(members.tl.key, members.tl.val, ascii), MembersText(members.tl.tl, ascii));
    }
  }

  /** JSON_STATE_OPEN_OBJECT. */
  method StepOpenObject(m: Memory, token0: Ptr, out0: seq<byte>, ghost d: Doc, ghost k: Rest, ghost ascii: bool)
    returns (token: Ptr, state: State, out: seq<byte>, ghost pos: Position)
    requires Here(m, AtValue(d, k), OpenObject, token0)
    ensures Here(m, pos, state, token) && WillPrint(pos) == WillPrint(AtValue(d, k))
    ensures out + Remaining(pos, ascii) == out0 + Remaining(AtValue(d, k), ascii) && |out| > |out0|
  {
    TokenOf(m, d, ParentOf(k), SiblingOf(k));
    assert d.Obj?;
    FirstMember(m, d.members, d.p);
    assert m[token0].child == FirstKey(d.members);
    hide Fits, FitsItems, FitsMembers, Print, Printable, Text;
    pos := Inside(d, k);
    out := out0 + [LBRACE];
    if m[token0].child == NULL {
      out := out + [RBRACE];
      EmptyText(d, ascii);
      Bracket(out0, [LBRACE], [RBRACE], Text(k, ascii));
      Assoc([LBRACE], [RBRACE], Text(k, ascii));
      token, state, out := Advance(m, token0, out, d, k, ascii);
    } else {
      OpenObjectText(d.p, d.members, k, ascii);
      Assoc(out0, [LBRACE], Remaining(pos, ascii));
      token := m[token0].child;
      state := ProcessKey;
    }
  }

  /** JSON_STATE_OPEN_ARRAY. */
  method StepOpenArray(m: Memory, token0: Ptr, out0: seq<byte>, ghost d: Doc, ghost k: Rest, ghost ascii: bool)
    returns (token: Ptr, state: State, out: seq<byte>, ghost pos: Position)
    requires Here(m, AtValue(d, k), OpenArray, token0)
    ensures Here(m, pos, state, token) && WillPrint(pos) == WillPrint(AtValue(d, k))
    ensures out + Remaining(pos, ascii) == out0 + Remaining(AtValue(d, k), ascii) && |out| > |out0|
  {
    TokenOf(m, d, ParentOf(k), SiblingOf(k));
    assert d.Arr?;
    FirstItem(m, d.items, d.p);
    assert m[token0].child == First(d.items);
    hide Fits, FitsItems, FitsMembers, Print, Printable, Text;
    pos := Inside(d, k);
    out := out0 + [LBRACKET];
    if m[token0].child == NULL {
      out := out + [RBRACKET];
      EmptyText(d, ascii);
      Bracket(out0, [LBRACKET], [RBRACKET], Text(k, ascii));
      Assoc([LBRACKET], [RBRACKET], Text(k, ascii));
      token, state, out := Advance(m, token0, out, d, k, ascii);
    } else {
      OpenArrayText(d.p, d.items, k, ascii);
      Assoc(out0, [LBRACKET], Remaining(pos, ascii));
      token := m[token0].child;
      TokenOf(m, d.items.hd, d.p, First(d.items.tl));
      state := StateFor(m[token].kind);
    }
  }

  /** JSON_STATE_PROCESS_PRIMITIVE. */
  method StepPrimitive(m: Memory, token0: Ptr, out0: seq<byte>, ghost d: Doc, ghost k: Rest, ascii: bool)
    returns (token: Ptr, state: State, out: seq<byte>, ghost pos: Position)
    requires Here(m, AtValue(d, k), ProcessPrimitive, token0)
    ensures Here(m, pos, state, token) && WillPrint(pos) == WillPrint(AtValue(d, k))
    ensures out + Remaining(pos, ascii) == out0 + Remaining(AtValue(d, k), ascii) && |out| > |out0|
  {
    TokenOf(m, d, ParentOf(k), SiblingOf(k));
    hide Fits, FitsItems, FitsMembers;
    pos := After(k);
    var text := PrimitiveText(m[token0], ascii);
    out := out0 + text;
    assert text == Print(d, ascii);
    Assoc(out0, text, Text(k, ascii));
    token, state, out := Advance(m, token0, out, d, k, ascii);
  }

  /** JSON_STATE_PROCESS_OBJECT_KEY. */
  method StepKey(m: Memory, token0: Ptr, out0: seq<byte>, ghost o: Ptr, ghost members: Members, ghost up: Rest, ascii: bool)
    returns (token: Ptr, state: State, out: seq<byte>, ghost pos: Position)
    requires Here(m, AtKey(o, members, up), ProcessKey, token0)
    ensures Here(m, pos, state, token) && WillPrint(pos) == WillPrint(AtKey(o, members, up))
    ensures out + Remaining(pos, ascii) == out0 + Remaining(AtKey(o, members, up), ascii) && |out| > |out0|
  {
    var key := m[token0];
    out := out0 + [QUOTE];
    out := ProcessEscapes(key.text, out, ascii);
    out := out + [QUOTE, COLON];
    token := key.child;
    TokenOf(m, members.val, members.k, NULL);
    state := StateFor(m[token].kind);
    pos := AtValue(members.val, InObj(o, members.k, members.tl, up));
    hide Fits, FitsItems;
    ghost var q, p, t := Quoted(members.key, ascii), Print(members.val, ascii), Text(pos.k, ascii);
    assert out == out0 + (q + [COLON]);
    Assoc(out0, q + [COLON], p + t);
    Assoc(q + [COLON], p, t);
  }

  /** A position while containers are being closed on the way up. */
  ghost predicate Rising(m: Memory, k: Rest, token: Ptr)
  {
    token == ParentOf(k) && FitsRest(m, k) && (k.InArr? ==> k.items.Nil?)
  }

  ghost function Height(k: Rest): nat
  {
    match k
    case Top => 0
    case InArr(_, _, up) => 1 + Height(up)
    case InObj(_, _, _, up) => 2 + Height(up)
    case EndObj(_, up) => 1 + Height(up)
  }

  /** The closing bracket of the token at which k is being closed; a key token has none. */
  ghost function BracketOf(k: Rest): seq<byte>
  {
    if k.InArr? then [RBRACKET] else if k.EndObj? then [RBRACE] else []
  }

  ghost predicate HasNext(k: Rest)
  {
    if k.InObj? then k.members.MCons? else !k.Top? && k.up.InArr? && k.up.items.Cons?
  }

  /** Where closing leads when there is a sibling: to the next key, or to the next array item,
      which the walk mistakes for a key if it is a string. */
  ghost function NextPosition(k: Rest): Position
    requires HasNext(k)
  {
    if k.InObj? then AtKey(k.o, k.members, k.up)
    else if IsString(k.up.items.hd) then Stuck
    else AtValue(k.up.items.hd, InArr(k.up.a, k.up.items.tl, k.up.up))
  }

  ghost function Outer(k: Rest): Rest
    requires !k.Top?
  {
    if k.InObj? then EndObj(k.o, k.up) else k.up
  }

  lemma ClosingNext(m: Memory, k: Rest, token: Ptr)
    requires Rising(m, k, token) && HasNext(k)
    ensures var next := m[token].sibling;
            && next != NULL && next in m
            && Here(m, NextPosition(k), if m[next].kind == StringKind then ProcessKey else StateFor(m[next].kind), next)
            && ((m[token].parent != NULL && m[token].parent in m && m[m[token].parent].kind == ArrayKind) || m[token].kind == StringKind)
  {
    if k.InObj? {
      FirstMember(m, k.members, k.o);
    } else {
      assert FitsRest(m, k.up);
      FirstItem(m, k.up.items, k.up.a);
      TokenOf(m, k.up.items.hd, k.up.a, First(k.up.items.tl));
      hide Fits, FitsItems;
    }
  }

  lemma ClosingText(k: Rest, ascii: bool)
    requires HasNext(k) && (k.InArr? ==> k.items.Nil?)
    ensures WillPrint(NextPosition(k)) == Fine(k, true)
    ensures NextPosition(k) != Stuck ==> Text(k, ascii) == BracketOf(k) + ([COMMA] + Remaining(NextPosition(k), ascii))
  {
    if k.InObj? {
      MembersNext(k.o, k.k, k.members, k.up, ascii);
      assert [] + ([COMMA] + Remaining(NextPosition(k), ascii)) == [COMMA] + Remaining(NextPosition(k), ascii);
    } else {
      ItemsNext(k.up.items, k.up.a, k.up.up, ascii);
      assert k.InArr? ==> ItemsText(k.items, ascii) + [RBRACKET] == [RBRACKET];
    }
  }

  lemma ClosingOuter(m: Memory, k: Rest, token: Ptr, ascii: bool)
    requires Rising(m, k, token) && !k.Top? && !HasNext(k)
    ensures m[token].sibling == NULL && Rising(m, Outer(k), m[token].parent)
    ensures Height(Outer(k)) < Height(k) && Fine(Outer(k), true) == Fine(k, true)
    ensures Text(k, ascii) == BracketOf(k) + Text(Outer(k), ascii)
  {
    if k.InObj? {
      FirstMember(m, k.members, k.o);
      assert MembersText(k.members, ascii) == [];
    } else {
      assert FitsRest(m, k.up);
      if k.InArr? {
        assert ItemsText(k.items, ascii) == [];
      }
      if k.up.InArr? {
        FirstItem(m, k.up.items, k.up.a);
      }
    }
  }

  /** One level of closing: the bracket of the token, then its sibling or its parent. */
  method CloseLevel(m: Memory, token0: Ptr, out0: seq<byte>, ghost k: Rest, ghost ascii: bool)
    returns (token: Ptr, out: seq<byte>, moved: bool, state: State)
    requires token0 != NULL && Rising(m, k, token0)
    ensures moved == HasNext(k) && |out| >= |out0|
    ensures !moved ==> Rising(m, Outer(k), token) && out + Text(Outer(k), ascii) == out0 + Text(k, ascii)
    ensures moved ==> token != NULL && Here(m, NextPosition(k), state, token) && |out| > |out0|
    ensures moved && NextPosition(k) != Stuck ==> out + Remaining(NextPosition(k), ascii) == out0 + Text(k, ascii)
  {
    if HasNext(k) {
      ClosingNext(m, k, token0);
      ClosingText(k, ascii);
      Bracket(out0, BracketOf(k), [COMMA], Remaining(NextPosition(k), ascii));
    } else {
      ClosingOuter(m, k, token0, ascii);
      Assoc(out0, BracketOf(k), Text(Outer(k), ascii));
    }
    hide Here, Text, Remaining, Fits, FitsItems, FitsMembers, NextPosition, HasNext;
    out, moved, state := out0, false, CloseContainer;
    if m[token0].kind == ObjectKind {
      out := out + [RBRACE];
    } else if m[token0].kind == ArrayKind {
      out := out + [RBRACKET];
    }
    assert out == out0 + BracketOf(k);
    if m[token0].sibling != NULL {
      moved := true;
      if (m[token0].parent != NULL && m[m[token0].parent].kind == ArrayKind) || m[token0].kind == StringKind {
        out := out + [COMMA];
      }
      token := m[token0].sibling;
      if m[token].kind == StringKind {
        state := ProcessKey;
      } else {
        state := StateFor(m[token].kind);
      }
    } else {
      token := m[token0].parent;
    }
  }

  lemma Bracket<T>(a: seq<T>, b: seq<T>, c: seq<T>, d: seq<T>)
    ensures (a + b + c) + d == a + (b + (c + d))
  {
  }

  /** JSON_STATE_CLOSE_CONTAINER. */
  method StepClose(m: Memory, token0: Ptr, out0: seq<byte>, ghost k0: Rest, ghost ascii: bool)
    returns (token: Ptr, state: State, out: seq<byte>, ghost pos: Position)
    requires token0 != NULL && Here(m, Closing(k0), CloseContainer, token0)
    ensures Here(m, pos, state, token) && WillPrint(pos) == Fine(k0, true) && |out| > |out0|
    ensures pos != Stuck ==> out + Remaining(pos, ascii) == out0 + Text(k0, ascii)
  {
    hide FitsMembers, FitsItems;
    token, state, out, pos := token0, CloseContainer, out0, Stuck;
    if m[token].kind == StringKind && m[token].sibling != NULL {
      FirstMember(m, k0.members, k0.o);
      MembersNext(k0.o, k0.k, k0.members, k0.up, ascii);
      out := out + [COMMA];
      token := m[token].sibling;
      state := ProcessKey;
      pos := AtKey(k0.o, k0.members, k0.up);
      Assoc(out0, [COMMA], Remaining(pos, ascii));
      return;
    }
    ghost var k := k0;
    while token != NULL
      invariant Rising(m, k, token) && Fine(k, true) == Fine(k0, true) && |out| >= |out0|
      invariant out + Text(k, ascii) == out0 + Text(k0, ascii)
      decreases Height(k)
    {
      if HasNext(k) {
        ClosingNext(m, k, token);
        ClosingText(k, ascii);
      } else {
        ClosingOuter(m, k, token, ascii);
      }
      var moved;
      token, out, moved, state := CloseLevel(m, token, out, k, ascii);
      if moved {
        pos := NextPosition(k);
        return;
      }
      k := Outer(k);
    }
    assert k == Top && Text(k, ascii) == [];
    pos, state := Closing(Top), CloseContainer;
    CloseProgress(k0, ascii);
  }

  lemma CloseProgress(k: Rest, ascii: bool)
    requires !k.Top?
    ensures |Text(k, ascii)| > 0
  {
  }

  lemma KeyToken(m: Memory, pos: Position, state: State, token: Ptr)
    requires Here(m, pos, state, token)
    ensures token == NULL ==> pos == Closing(Top)
    ensures token != NULL ==> token in m
    ensures pos.AtKey? ==> m[token].kind == StringKind && m[token].child != NULL
    ensures pos.AtValue? ==> state != ProcessKey && state != CloseContainer
  {
    if pos.AtKey? {
      TokenOf(m, pos.members.val, pos.members.k, NULL);
    }
  }

  /** __json_stringify_token: success and output of the walk over the document d at root. */
  method Stringify(m: Memory, root: Ptr, ascii: bool, ghost d: Doc) returns (ok: bool, out: seq<byte>)
    requires root == Ref(d) && Fits(m, d, NULL, NULL)
    ensures ok == Printable(d)
    ensures ok ==> out == Print(d, ascii)
  {
    hide Fits, Print, Printable;
    TokenOf(m, d, NULL, NULL);
    out := [];
    var token := root;
    var state := StateFor(m[token].kind);
    ghost var pos := AtValue(d, Top);
    assert Remaining(pos, ascii) == Print(d, ascii);
    while token != NULL
      invariant Here(m, pos, state, token) && WillPrint(pos) == Printable(d)
      invariant pos != Stuck ==> out + Remaining(pos, ascii) == Print(d, ascii)
      decreases pos != Stuck, |Remaining(pos, ascii)|
    {
      KeyToken(m, pos, state, token);
      match state
      case OpenObject =>
        token, state, out, pos := StepOpenObject(m, token, out, pos.d, pos.k, ascii);
      case ProcessKey =>
        if m[token].kind != StringKind || m[token].child == NULL {
          return false, [];
        }
        token, state, out, pos := StepKey(m, token, out, pos.o, pos.members, pos.up, ascii);
      case OpenArray =>
        token, state, out, pos := StepOpenArray(m, token, out, pos.d, pos.k, ascii);
      case ProcessPrimitive =>
        token, state, out, pos := StepPrimitive(m, token, out, pos.d, pos.k, ascii);
      case CloseContainer =>
        token, state, out, pos := StepClose(m, token, out, pos.k, ascii);
    }
    KeyToken(m, pos, state, token);
    ok := true;
  }
}
