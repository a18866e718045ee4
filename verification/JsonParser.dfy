/** The parser of misc/json.c: one pass over the text, driven by a current-parent pointer that
    closing brackets and commas move up the parent links. */
module JsonParser {
  import opened Common
  import opened JsonString
  import opened JsonTree

  // ----- the state of the loop

  /** The token memory, the current parent, the last token added, the document root, and the
      address the next token gets. */
  datatype PState = PState(m: Memory, super: Ptr, last: Ptr, root: Ptr, next: Ptr)

  const INITIAL := PState(map[], NULL, NULL, NULL, 1)

  /** Tokens lie below `next`, links lead to tokens, and a parent is older than its children. */
  ghost predicate Sound(st: PState)
  {
    && st.next > 0
    && (forall p :: p in st.m ==> 0 < p < st.next)
    && (forall p :: p in st.m && st.m[p].parent != NULL ==> st.m[p].parent in st.m && st.m[p].parent < p)
    && (forall p :: p in st.m && st.m[p].child != NULL ==> st.m[p].last in st.m && st.m[p].last > p)
    && (st.super != NULL ==> st.super in st.m)
    && (st.last != NULL ==> st.last in st.m)
  }

  function NewToken(kind: Kind, text: seq<byte>, number: int): Token
  {
    Token(kind, text, number, NULL, NULL, NULL, NULL, 0)
  }

  predicate IsContainer(kind: Kind)
  {
    kind == ObjectKind || kind == ArrayKind
  }

  /** __set_child_or_sibling on the memory. */
  ghost function Linked(m: Memory, src: Ptr, dst: Ptr): Memory
    requires src in m && dst in m && (m[src].child != NULL ==> m[src].last in m)
  {
    var s := m[src];
    var m1 := if s.child == NULL then m[src := s.(child := dst)] else m[s.last := m[s.last].(sibling := dst)];
    var m2 := m1[src := m1[src].(last := dst)];
    var m3 := m2[dst := m2[dst].(parent := src)];
    if IsContainer(m3[src].kind) then m3[src := m3[src].(size := m3[src].size + 1)] else m3
  }

  /** The last child of a token, if it has any. */
  ghost function OldLast(m: Memory, src: Ptr): Ptr
    requires src in m
  {
    if m[src].child == NULL then NULL else m[src].last
  }

  /** What linking does, cell by cell. */
  lemma LinkedCells(m: Memory, src: Ptr, dst: Ptr)
    requires src in m && dst in m && src != dst && (m[src].child != NULL ==> m[src].last in m)
    requires OldLast(m, src) != src && OldLast(m, src) != dst
    ensures var m', s := Linked(m, src, dst), m[src];
            && m'.Keys == m.Keys
            && m'[dst] == m[dst].(parent := src)
            && m'[src] == s.(child := if s.child == NULL then dst else s.child, last := dst,
                             size := if IsContainer(s.kind) then s.size + 1 else s.size)
            && (s.child != NULL ==> m'[s.last] == m[s.last].(sibling := dst))
            && forall p :: p in m && p != src && p != dst && p != OldLast(m, src) ==> m'[p] == m[p]
  {
  }

  /** The children of a token: the chain from its child link by sibling links, last link included. */
  ghost predicate Children(m: Memory, src: Ptr, kids: seq<Ptr>)
  {
    src in m && Siblings(m, m[src].child, kids) && (kids != [] ==> m[src].last == kids[|kids| - 1])
  }

  ghost predicate Siblings(m: Memory, p: Ptr, kids: seq<Ptr>)
    decreases |kids|
  {
    if kids == [] then p == NULL
    else p == kids[0] && p != NULL && p in m && Siblings(m, m[p].sibling, kids[1..])
  }

  lemma {:induction false} SiblingsAppend(m: Memory, m': Memory, p: Ptr, kids: seq<Ptr>, dst: Ptr)
    requires Siblings(m, p, kids) && kids != [] && dst != NULL && dst in m' && m'[dst].sibling == NULL
    requires forall i, j :: 0 <= i < j < |kids| ==> kids[i] != kids[j]
    requires forall i :: 0 <= i < |kids| ==> kids[i] in m && kids[i] in m' && (i < |kids| - 1 ==> m'[kids[i]].sibling == m[kids[i]].sibling)
    requires m'[kids[|kids| - 1]].sibling == dst
    ensures Siblings(m', p, kids + [dst])
    decreases |kids|
  {
    assert (kids + [dst])[1..] == kids[1..] + [dst];
    if |kids| == 1 {
      assert kids[1..] == [] && [dst][1..] == [];
      assert Siblings(m', dst, [dst]);
    } else {
      SiblingsAppend(m, m', m[p].sibling, kids[1..], dst);
    }
  }

  /** Linking a token under a parent makes it the parent's last child, after the children it had,
      and the parent its parent; a container counts it. */
  lemma LinkedAppends(m: Memory, src: Ptr, dst: Ptr, kids: seq<Ptr>)
    requires Children(m, src, kids) && dst in m && dst != NULL && m[dst].sibling == NULL
    requires src != NULL && src != dst && src !in kids && dst !in kids && forall i, j :: 0 <= i < j < |kids| ==> kids[i] != kids[j]
    ensures m[src].child != NULL ==> m[src].last in m
    ensures var m' := Linked(m, src, dst);
            && Children(m', src, kids + [dst]) && m'[dst].parent == src
            && m'[src].size == m[src].size + (if IsContainer(m[src].kind) then 1 else 0)
  {
    SiblingsIn(m, m[src].child, kids);
    LinkedCells(m, src, dst);
    var m' := Linked(m, src, dst);
    hide Linked;
    if kids == [] {
      assert [] + [dst] == [dst] && [dst][1..] == [];
      assert Siblings(m', dst, [dst]);
    } else {
      SiblingsAppend(m, m', m[src].child, kids, dst);
    }
  }

  lemma {:induction false} SiblingsIn(m: Memory, p: Ptr, kids: seq<Ptr>)
    requires Siblings(m, p, kids)
    ensures (forall i :: 0 <= i < |kids| ==> kids[i] in m && kids[i] != NULL) && (p == NULL <==> kids == [])
    decreases |kids|
  {
    if kids != [] {
      SiblingsIn(m, m[p].sibling, kids[1..]);
    }
  }

  /** A new token, linked under the current parent, root if it is the first. */
  ghost function Added(st: PState, token: Token): PState
    requires Sound(st)
  {
    var p := st.next;
    var m := st.m[p := token];
    PState(if st.super == NULL then m else Linked(m, st.super, p), st.super, p, if st.root == NULL then p else st.root, p + 1)
  }

  lemma AddedSound(st: PState, token: Token)
    requires Sound(st) && token == NewToken(token.kind, token.text, token.number)
    ensures Sound(Added(st, token)) && st.next in Added(st, token).m && Added(st, token).last == st.next
  {
    hide Linked;
    if st.super != NULL {
      LinkedCells(st.m[st.next := token], st.super, st.next);
    }
  }

  /** The nearest token of the given kind, from c up the parent links. */
  ghost function Enclosing(m: Memory, c: Ptr, kind: Kind): Ptr
    requires forall p :: p in m && m[p].parent != NULL ==> m[p].parent in m && m[p].parent < p
    requires forall p :: p in m ==> 0 < p
    requires c != NULL ==> c in m
    decreases c
  {
    if c == NULL then NULL else if m[c].kind == kind then c else Enclosing(m, m[c].parent, kind)
  }

  // ----- numbers and literals

  predicate IsDigit(b: byte)
  {
    0x30 <= b <= 0x39
  }

  function DigitRun(s: seq<byte>): (n: nat)
    ensures n <= |s|
  {
    if s != [] && IsDigit(s[0]) then 1 + DigitRun(s[1..]) else 0
  }

  function DigitsValue(s: seq<byte>): int
  {
    if s == [] then 0 else DigitsValue(s[..|s| - 1]) * 10 + (s[|s| - 1] as int - 0x30)
  }

  datatype Number = Number(value: int, size: nat)

  /** An optional minus sign and a run of digits. */
  function ReadNumber(s: seq<byte>): (r: Option<Number>)
    ensures r.Some? ==> 0 < r.value.size <= |s|
  {
    var sign := if s != [] && s[0] == MINUS then 1 else 0;
    var n := DigitRun(s[sign..]);
    if n == 0 then None
    else
      var v := DigitsValue(s[sign..sign + n]);
      Some(Number(if sign == 1 then -v else v, sign + n))
  }

  /** Whether the first n letters of a literal stand at pos. */
  predicate LiteralAt(json: seq<byte>, pos: nat, literal: seq<byte>, n: nat)
    requires n <= |literal|
  {
    pos + n <= |json| && forall i :: 0 <= i < n ==> json[pos + i] == literal[i]
  }

  // ----- one round of the loop

  datatype Outcome = Fail | Go(pos: nat, st: PState)

  predicate IsSpace(c: byte)
  {
    c == 0x09 || c == 0x0A || c == 0x0D || c == 0x20
  }

  ghost function OpenStep(pos: nat, st: PState, kind: Kind): Outcome
    requires Sound(st)
  {
    if st.super != NULL && st.m[st.super].kind == ObjectKind then Fail
    else var st' := Added(st, NewToken(kind, [], 0)); Go(pos + 1, st'.(super := st'.last))
  }

  ghost function CloseStep(pos: nat, st: PState, kind: Kind): Outcome
    requires Sound(st)
  {
    var e := Enclosing(st.m, st.super, kind);
    if e == NULL || e !in st.m then Fail else Go(pos + 1, st.(super := st.m[e].parent))
  }

  ghost function StringStep(json: seq<byte>, pos: nat, st: PState): Outcome
    requires Sound(st)
  {
    match StringAt(json, pos)
    case None => Fail
    case Some(r) => Go(pos + 1 + r.size, Added(st, NewToken(StringKind, r.text, 0)))
  }

  ghost function PrimitiveStep(json: seq<byte>, pos: nat, st: PState): Outcome
    requires Sound(st) && pos < |json|
  {
    if st.super != NULL && st.m[st.super].kind == ObjectKind then Fail
    else if json[pos] == TRUE_TEXT[0] then
      if LiteralAt(json, pos, TRUE_TEXT, 4) then Go(pos + 4, Added(st, NewToken(BoolKind, [], 1))) else Fail
    else if json[pos] == FALSE_TEXT[0] then
      // Only the first four letters of "false" are compared.
      if LiteralAt(json, pos, FALSE_TEXT, 4) then Go(pos + 5, Added(st, NewToken(BoolKind, [], 0))) else Fail
    else if json[pos] == NULL_TEXT[0] then
      if LiteralAt(json, pos, NULL_TEXT, 4) then Go(pos + 4, Added(st, NewToken(NullKind, [], 0))) else Fail
    else
      match ReadNumber(json[pos..])
      case None => Fail
      case Some(r) => Go(pos + r.size, Added(st, NewToken(NumberKind, [], r.value)))
  }

  predicate StartsPrimitive(c: byte)
  {
    c == MINUS || IsDigit(c) || c == TRUE_TEXT[0] || c == FALSE_TEXT[0] || c == NULL_TEXT[0]
  }

  ghost function Step(json: seq<byte>, pos: nat, st: PState): (r: Outcome)
    requires Sound(st) && pos < |json|
  {
    var c := json[pos];
    if c == LBRACE then OpenStep(pos, st, ObjectKind)
    else if c == LBRACKET then OpenStep(pos, st, ArrayKind)
    else if c == RBRACE then CloseStep(pos, st, ObjectKind)
    else if c == RBRACKET then CloseStep(pos, st, ArrayKind)
    else if c == QUOTE then StringStep(json, pos, st)
    else if IsSpace(c) then Go(pos + 1, st)
    else if c == COLON then Go(pos + 1, if st.last != NULL then st.(super := st.last) else st)
    else if c == COMMA then
      Go(pos + 1, if st.super != NULL && !IsContainer(st.m[st.super].kind) then st.(super := st.m[st.super].parent) else st)
    else if StartsPrimitive(c) then PrimitiveStep(json, pos, st)
    else Fail
  }

  lemma {:induction false} EnclosingFound(m: Memory, c: Ptr, kind: Kind)
    requires forall p :: p in m && m[p].parent != NULL ==> m[p].parent in m && m[p].parent < p
    requires forall p :: p in m ==> 0 < p
    requires c != NULL ==> c in m
    ensures Enclosing(m, c, kind) != NULL ==> Enclosing(m, c, kind) in m && m[Enclosing(m, c, kind)].kind == kind
    decreases c
  {
    if c != NULL && m[c].kind != kind {
      EnclosingFound(m, m[c].parent, kind);
    }
  }

  lemma StepSound(json: seq<byte>, pos: nat, st: PState)
    requires Sound(st) && pos < |json|
    ensures var r := Step(json, pos, st); r.Go? ==> r.pos > pos && Sound(r.st)
  {
    hide OpenStep, CloseStep, StringStep, PrimitiveStep, IsSpace, StartsPrimitive, Sound, IsContainer;
    AddedSteps(json, pos, st);
    CloseSound(pos, st, ObjectKind);
    CloseSound(pos, st, ArrayKind);
    MoveSound(st);
  }

  lemma CloseSound(pos: nat, st: PState, kind: Kind)
    requires Sound(st)
    ensures var r := CloseStep(pos, st, kind); r.Go? ==> r.pos > pos && Sound(r.st)
  {
    EnclosingFound(st.m, st.super, kind);
    hide Enclosing;
  }

  lemma MoveSound(st: PState)
    requires Sound(st)
    ensures st.last != NULL ==> Sound(st.(super := st.last))
    ensures st.super != NULL ==> st.super in st.m && Sound(st.(super := st.m[st.super].parent))
  {
  }

  lemma AddedSteps(json: seq<byte>, pos: nat, st: PState)
    requires Sound(st) && pos < |json|
    ensures var r := OpenStep(pos, st, ObjectKind); r.Go? ==> r.pos > pos && Sound(r.st)
    ensures var r := OpenStep(pos, st, ArrayKind); r.Go? ==> r.pos > pos && Sound(r.st)
    ensures var r := StringStep(json, pos, st); r.Go? ==> r.pos > pos && Sound(r.st)
    ensures var r := PrimitiveStep(json, pos, st); r.Go? ==> r.pos > pos && Sound(r.st)
  {
    hide Added, ReadNumber, StringAt;
    AddedSound(st, NewToken(ObjectKind, [], 0));
    AddedSound(st, NewToken(ArrayKind, [], 0));
    AddedSound(st, NewToken(BoolKind, [], 1));
    AddedSound(st, NewToken(BoolKind, [], 0));
    AddedSound(st, NewToken(NullKind, [], 0));
    if StringAt(json, pos).Some? {
      AddedSound(st, NewToken(StringKind, StringAt(json, pos).value.text, 0));
    }
    if ReadNumber(json[pos..]).Some? {
      AddedSound(st, NewToken(NumberKind, [], ReadNumber(json[pos..]).value.value));
    }
  }

  /** Where a value may stand, an f is read as a literal exactly when the first four letters of
      "false" stand there: the fifth is stepped over unseen. */
  lemma FalseStep(json: seq<byte>, pos: nat, st: PState)
    requires Sound(st) && pos < |json| && json[pos] == FALSE_TEXT[0]
    requires !(st.super != NULL && st.m[st.super].kind == ObjectKind)
    ensures Step(json, pos, st) ==
            if LiteralAt(json, pos, FALSE_TEXT, 4) then Go(pos + 5, Added(st, NewToken(BoolKind, [], 0))) else Fail
    ensures Step(json, pos, st).Go? ==>
              (LiteralAt(json, pos, FALSE_TEXT, 5) <==> pos + 4 < |json| && json[pos + 4] == FALSE_TEXT[4])
    ensures LiteralAt(json, pos, FALSE_TEXT, 5) ==> Step(json, pos, st).Go?
  {
    hide Added;
  }

  // ----- the whole loop

  datatype Parsed = Rejected | Accepted(st: PState)

  ghost function Run(json: seq<byte>, pos: nat, st: PState): Parsed
    requires Sound(st)
    decreases |json| - pos
  {
    if pos >= |json| || json[pos] == 0 then
      if st.super != NULL then Rejected else Accepted(st)
    else
      StepSound(json, pos, st);
      match Step(json, pos, st)
      case Fail => Rejected
      case Go(pos', st') => Run(json, pos', st')
  }

  /** So the text falsX, for any X, is accepted and read as false. */
  lemma FalsXAccepted(x: byte)
    ensures var r := Run(FALSE_TEXT[..4] + [x], 0, INITIAL);
            r.Accepted? && r.st.root == 1 && 1 in r.st.m && r.st.m[1] == NewToken(BoolKind, [], 0)
  {
    var json := FALSE_TEXT[..4] + [x];
    var token := NewToken(BoolKind, [], 0);
    assert LiteralAt(json, 0, FALSE_TEXT, 4);
    FalseStep(json, 0, INITIAL);
    StepSound(json, 0, INITIAL);
    assert Step(json, 0, INITIAL) == Go(5, Added(INITIAL, token));
    assert Run(json, 5, Added(INITIAL, token)) == Accepted(Added(INITIAL, token));
  }

  method SetChildOrSibling(m0: Memory, src: Ptr, dst: Ptr) returns (m: Memory)
    requires src in m0 && dst in m0 && (m0[src].child != NULL ==> m0[src].last in m0)
    ensures m == Linked(m0, src, dst)
  {
    m := m0;
    if m[src].child == NULL {
      m := m[src := m[src].(child := dst)];
    } else {
      var last := m[src].last;
      m := m[last := m[last].(sibling := dst)];
    }
    m := m[src := m[src].(last := dst)];
    m := m[dst := m[dst].(parent := src)];
    if IsContainer(m[src].kind) {
      m := m[src := m[src].(size := m[src].size + 1)];
    }
  }

  /** Allocates a token, links it under the current parent and makes it the root if there is none. */
  method AddToken(st: PState, token: Token) returns (r: PState)
    requires Sound(st)
    ensures r == Added(st, token)
  {
    var p := st.next;
    var m := st.m[p := token];
    if st.super != NULL {
      m := SetChildOrSibling(m, st.super, p);
    }
    r := PState(m, st.super, p, if st.root == NULL then p else st.root, p + 1);
  }

  /** Climbs from the current parent to the container a closing bracket belongs to. */
  method FindContainer(m: Memory, super: Ptr, expected: Kind) returns (container: Ptr)
    requires forall p :: p in m && m[p].parent != NULL ==> m[p].parent in m && m[p].parent < p
    requires forall p :: p in m ==> 0 < p
    requires super in m
    ensures container == Enclosing(m, super, expected)
  {
    container := super;
    while container != NULL && m[container].kind != expected
      invariant container != NULL ==> container in m
      invariant Enclosing(m, container, expected) == Enclosing(m, super, expected)
      decreases container
    {
      var parent := m[container].parent;
      if parent != NULL && m[parent].kind == expected {
        return parent;
      }
      container := parent;
    }
  }

  method MatchLiteral(json: seq<byte>, pos: nat, literal: seq<byte>, n: nat) returns (ok: bool)
    requires n <= |literal| && pos <= |json|
    ensures ok == LiteralAt(json, pos, literal, n)
  {
    for i := 0 to n
      invariant pos + i <= |json|
      invariant forall j :: 0 <= j < i ==> json[pos + j] == literal[j]
    {
      if pos + i >= |json| || json[pos + i] != literal[i] {
        return false;
      }
    }
    ok := true;
  }

  /** The body of the loop of json_parse: one character, or one string, number or literal. */
  method TakeChar(json: seq<byte>, pos: nat, st: PState) returns (o: Outcome)
    requires Sound(st) && pos < |json|
    ensures o == Step(json, pos, st)
  {
    hide Linked, Added, ReadNumber, StringAt;
    var c := json[pos];
    if c == LBRACE || c == LBRACKET {
      if st.super != NULL && st.m[st.super].kind == ObjectKind {
        return Fail;
      }
      var st' := AddToken(st, NewToken(if c == LBRACE then ObjectKind else ArrayKind, [], 0));
      o := Go(pos + 1, st'.(super := st'.last));
    } else if c == RBRACE || c == RBRACKET {
      o := TakeClosing(pos, st, if c == RBRACE then ObjectKind else ArrayKind);
    } else if c == QUOTE {
      var token := ParseString(json, pos);
      if token.None? {
        return Fail;
      }
      var st' := AddToken(st, NewToken(StringKind, token.value.text, 0));
      o := Go(pos + 1 + token.value.size, st');
    } else if IsSpace(c) {
      o := Go(pos + 1, st);
    } else if c == COLON {
      o := Go(pos + 1, if st.last != NULL then st.(super := st.last) else st);
    } else if c == COMMA {
      if st.super != NULL && !IsContainer(st.m[st.super].kind) {
        return Go(pos + 1, st.(super := st.m[st.super].parent));
      }
      o := Go(pos + 1, st);
    } else if StartsPrimitive(c) {
      if st.super != NULL && st.m[st.super].kind == ObjectKind {
        return Fail;
      }
      var ok, token, size := ParsePrimitive(json, pos);
      if !ok {
        return Fail;
      }
      var st' := AddToken(st, token);
      o := Go(pos + size, st');
    } else {
      o := Fail;
    }
  }

  method TakeClosing(pos: nat, st: PState, kind: Kind) returns (o: Outcome)
    requires Sound(st)
    ensures o == CloseStep(pos, st, kind)
  {
    if st.super == NULL {
      return Fail;
    }
    EnclosingFound(st.m, st.super, kind);
    var container := FindContainer(st.m, st.super, kind);
    if container == NULL {
      return Fail;
    }
    o := Go(pos + 1, st.(super := st.m[container].parent));
  }

  /** json_parse. */
  method Parse(json: seq<byte>) returns (r: Parsed)
    ensures r == Run(json, 0, INITIAL)
  {
    hide Step;
    var st := INITIAL;
    var pos := 0;
    while pos < |json| && json[pos] != 0
      invariant Sound(st) && Run(json, pos, st) == Run(json, 0, INITIAL)
      decreases |json| - pos
    {
      StepSound(json, pos, st);
      var o := TakeChar(json, pos, st);
      if o.Fail? {
        return Rejected;
      }
      pos, st := o.pos, o.st;
    }
    r := if st.super != NULL then Rejected else Accepted(st);
  }

  method ParsePrimitive(json: seq<byte>, pos: nat) returns (ok: bool, token: Token, size: nat)
    requires pos < |json| && StartsPrimitive(json[pos])
    ensures forall st :: Sound(st) && !(st.super != NULL && st.m[st.super].kind == ObjectKind) ==>
              PrimitiveStep(json, pos, st) == if ok then Go(pos + size, Added(st, token)) else Fail
  {
    hide Added;
    token, size := NewToken(NullKind, [], 0), 4;
    if json[pos] == TRUE_TEXT[0] {
      ok := MatchLiteral(json, pos, TRUE_TEXT, 4);
      token := NewToken(BoolKind, [], 1);
    } else if json[pos] == FALSE_TEXT[0] {
      ok := MatchLiteral(json, pos, FALSE_TEXT, 4);
      token, size := NewToken(BoolKind, [], 0), 5;
    } else if json[pos] == NULL_TEXT[0] {
      ok := MatchLiteral(json, pos, NULL_TEXT, 4);
    } else {
      var r := ReadNumber(json[pos..]);
      ok := r.Some?;
      if ok {
        token, size := NewToken(NumberKind, [], r.value.value), r.value.size;
      }
    }
  }
}
