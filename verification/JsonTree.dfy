/** JSON documents of misc/json.c: tokens linked by child, sibling, last-sibling and parent
    pointers in an explicit memory, the documents they stand for, and the plain recursive printer. */
module JsonTree {
  import opened Common
  import opened JsonString

  type Ptr = int
  const NULL: Ptr := 0

  /** Numbers are taken as exact integers in the range the printer prints as integers. */
  type Int64 = n: int | -0x8000_0000_0000_0000 <= n <= 0x7FFF_FFFF_FFFF_FFFF

  datatype Kind = ObjectKind | ArrayKind | StringKind | BoolKind | NullKind | NumberKind

  /** A token; `number` is also the 0/1 value of a boolean. */
  datatype Token = Token(kind: Kind, text: seq<byte>, number: int,
                         child: Ptr, sibling: Ptr, last: Ptr, parent: Ptr, size: nat)

  type Memory = map<Ptr, Token>

  datatype Scalar = Str(text: seq<byte>) | Bool(b: bool) | Null | Num(n: Int64)

  /** A document, each node with the address of its token. A member has a key token and a value. */
  datatype Doc = Leaf(p: Ptr, v: Scalar) | Arr(p: Ptr, items: Docs) | Obj(p: Ptr, members: Members)
  datatype Docs = Nil | Cons(hd: Doc, tl: Docs)
  datatype Members = MNil | MCons(k: Ptr, key: seq<byte>, val: Doc, tl: Members)

  // ----- the recursive printer

  const COMMA: byte := 0x2C
  const COLON: byte := 0x3A
  const LBRACKET: byte := 0x5B
  const RBRACKET: byte := 0x5D
  const LBRACE: byte := 0x7B
  const RBRACE: byte := 0x7D
  const MINUS: byte := 0x2D
  const TRUE_TEXT: seq<byte> := [0x74, 0x72, 0x75, 0x65]
  const FALSE_TEXT: seq<byte> := [0x66, 0x61, 0x6C, 0x73, 0x65]
  const NULL_TEXT: seq<byte> := [0x6E, 0x75, 0x6C, 0x6C]

  function Decimal(n: nat): (r: seq<byte>)
    ensures r != []
  {
    if n < 10 then [0x30 + n] else Decimal(n / 10) + [0x30 + n % 10]
  }

  function NumberText(n: int): (r: seq<byte>)
    ensures r != []
  {
    if n < 0 then [MINUS] + Decimal(-n) else Decimal(n)
  }

  function Quoted(s: seq<byte>, ascii: bool): (r: seq<byte>)
    ensures r != []
  {
    [QUOTE] + Escape(s, ascii) + [QUOTE]
  }

  function ScalarText(v: Scalar, ascii: bool): (r: seq<byte>)
    ensures r != []
  {
    match v
    case Str(s) => Quoted(s, ascii)
    case Bool(b) => if b then TRUE_TEXT else FALSE_TEXT
    case Null => NULL_TEXT
    case Num(n) => NumberText(n)
  }

  function Print(d: Doc, ascii: bool): (r: seq<byte>)
    ensures r != []
    decreases d, 0
  {
    match d
    case Leaf(_, v) => ScalarText(v, ascii)
    case Arr(_, items) => [LBRACKET] + PrintItems(items, ascii) + [RBRACKET]
    case Obj(_, members) => [LBRACE] + PrintMembers(members, ascii) + [RBRACE]
  }

  function PrintItems(items: Docs, ascii: bool): seq<byte>
    decreases items, 0
  {
    match items
    case Nil => []
    case Cons(d, Nil) => Print(d, ascii)
    case Cons(d, tl) => Print(d, ascii) + [COMMA] + PrintItems(tl, ascii)
  }

  function PrintMember(key: seq<byte>, val: Doc, ascii: bool): (r: seq<byte>)
    ensures r != []
    decreases val, 1
  {
    Quoted(key, ascii) + [COLON] + Print(val, ascii)
  }

  function PrintMembers(members: Members, ascii: bool): seq<byte>
    decreases members, 0
  {
    match members
    case MNil => []
    case MCons(_, key, val, MNil) => PrintMember(key, val, ascii)
    case MCons(_, key, val, tl) => PrintMember(key, val, ascii) + [COMMA] + PrintMembers(tl, ascii)
  }

  // ----- memory that holds a document

  ghost function Ref(d: Doc): Ptr
  {
    d.p
  }

  ghost function First(items: Docs): Ptr
  {
    if items.Nil? then NULL else Ref(items.hd)
  }

  ghost function Last(items: Docs): Ptr
  {
    if items.Nil? then NULL else if items.tl.Nil? then Ref(items.hd) else Last(items.tl)
  }

  ghost function FirstKey(members: Members): Ptr
  {
    if members.MNil? then NULL else members.k
  }

  ghost function LastKey(members: Members): Ptr
  {
    if members.MNil? then NULL else if members.tl.MNil? then members.k else LastKey(members.tl)
  }

  ghost function Count(items: Docs): nat
  {
    if items.Nil? then 0 else 1 + Count(items.tl)
  }

  ghost function CountKeys(members: Members): nat
  {
    if members.MNil? then 0 else 1 + CountKeys(members.tl)
  }

  ghost function ScalarToken(v: Scalar, parent: Ptr, sibling: Ptr): Token
  {
    match v
    case Str(s) => Token(StringKind, s, 0, NULL, sibling, NULL, parent, 0)
    case Bool(b) => Token(BoolKind, [], if b then 1 else 0, NULL, sibling, NULL, parent, 0)
    case Null => Token(NullKind, [], 0, NULL, sibling, NULL, parent, 0)
    case Num(n) => Token(NumberKind, [], n, NULL, sibling, NULL, parent, 0)
  }

  /** m holds the document d under the given parent and before the given sibling. */
  ghost predicate Fits(m: Memory, d: Doc, parent: Ptr, sibling: Ptr)
  {
    && Ref(d) != NULL && Ref(d) in m
    && match d
       case Leaf(p, v) => m[p] == ScalarToken(v, parent, sibling)
       case Arr(p, items) =>
         && m[p] == Token(ArrayKind, [], 0, First(items), sibling, Last(items), parent, Count(items))
         && FitsItems(m, items, p)
       case Obj(p, members) =>
         && m[p] == Token(ObjectKind, [], 0, FirstKey(members), sibling, LastKey(members), parent, CountKeys(members))
         && FitsMembers(m, members, p)
  }

  ghost predicate FitsItems(m: Memory, items: Docs, parent: Ptr)
  {
    items.Cons? ==> Fits(m, items.hd, parent, First(items.tl)) && FitsItems(m, items.tl, parent)
  }

  ghost predicate FitsMembers(m: Memory, members: Members, parent: Ptr)
  {
    members.MCons? ==>
      && members.k != NULL && members.k in m
      && m[members.k] == Token(StringKind, members.key, 0, Ref(members.val), FirstKey(members.tl), Ref(members.val), parent, 0)
      && Fits(m, members.val, members.k, NULL)
      && FitsMembers(m, members.tl, parent)
  }

  /** What the token of a document holds. */
  lemma TokenOf(m: Memory, d: Doc, parent: Ptr, sibling: Ptr)
    requires Fits(m, d, parent, sibling)
    ensures Ref(d) != NULL && Ref(d) in m && m[Ref(d)].parent == parent && m[Ref(d)].sibling == sibling
    ensures d.Arr? ==> m[d.p].kind == ArrayKind && m[d.p].child == First(d.items) && FitsItems(m, d.items, d.p)
    ensures d.Obj? ==> m[d.p].kind == ObjectKind && m[d.p].child == FirstKey(d.members) && FitsMembers(m, d.members, d.p)
    ensures d.Leaf? ==> m[d.p] == ScalarToken(d.v, parent, sibling)
  {
  }

  lemma FirstItem(m: Memory, items: Docs, parent: Ptr)
    requires FitsItems(m, items, parent)
    ensures First(items) == NULL <==> items.Nil?
    ensures items.Cons? ==> Fits(m, items.hd, parent, First(items.tl)) && FitsItems(m, items.tl, parent)
  {
  }

  lemma FirstMember(m: Memory, members: Members, parent: Ptr)
    requires FitsMembers(m, members, parent)
    ensures FirstKey(members) == NULL <==> members.MNil?
  {
  }
}
