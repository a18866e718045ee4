/** What the template translator promises: literal text is copied byte for byte, placeholders are
    numbered in the order of the bind list, and putting the bound values back for them gives what
    substituting the values in the template would have given. */
module SqlTemplateLaws {
  import opened Common
  import opened Sequences
  import opened SqlTemplate

  // ----- literal text is copied

  ghost function PieceSource(p: Piece): string
  {
    match p
    case Lit(t) => t
    case Par(sigil, name) => [sigil] + name
  }

  ghost function Source(pieces: seq<Piece>): string
  {
    if pieces == [] then "" else PieceSource(pieces[0]) + Source(pieces[1..])
  }

  lemma {:induction false} SourceMore(a: seq<Piece>, b: seq<Piece>)
    ensures Source(a + b) == Source(a) + Source(b)
  {
    if a == [] {
      assert a + b == b;
    } else {
      assert (a + b)[1..] == a[1..] + b;
      SourceMore(a[1..], b);
      Assoc(PieceSource(a[0]), Source(a[1..]), Source(b));
    }
  }

  lemma SourceOne(p: Piece)
    ensures Source([p]) == PieceSource(p)
  {
    assert [p][1..] == [];
  }

  lemma Slices(q: string, a: nat, b: nat, c: nat)
    requires a <= b <= c <= |q|
    ensures q[a..b] + q[b..c] == q[a..c]
  {
  }

  lemma EndSource(q: string, c: Cursor)
    requires Good(q, c) && c.i < |q|
    ensures var r := EndStep(q, c); c.copied <= r.next.copied <= |q| && Source(r.pieces) == q[c.copied..r.next.copied]
  {
    hide Source, IsSpecial;
    SourceNone(q, c.copied);
    var last, special := c.i == |q| - 1, IsSpecial(q[c.i]);
    var end := if last && !special then c.i + 1 else c.i;
    if c.start >= 0 && (special || last) && 0 < end - c.start - 1 < MAX_PARAM_NAME {
      LitParSource(q, c.copied, c.start, end);
      if last {
        TailSource([Lit(q[c.copied..c.start]), Par(q[c.start], q[c.start + 1..end])], q, c.copied, end);
      }
    } else if last && (c.start == -1 || special || last) {
      TailSource([], q, c.copied, c.copied);
    }
  }

  lemma SourceNone(q: string, i: nat)
    requires i <= |q|
    ensures Source([]) == q[i..i]
  {
  }

  lemma LitParSource(q: string, copied: nat, start: nat, end: nat)
    requires copied <= start < end <= |q|
    ensures Source([Lit(q[copied..start]), Par(q[start], q[start + 1..end])]) == q[copied..end]
  {
    var lit, par := Lit(q[copied..start]), Par(q[start], q[start + 1..end]);
    assert [lit, par] == [lit] + [par];
    SourceMore([lit], [par]);
    SourceOne(lit);
    SourceOne(par);
    assert q[start..end] == [q[start]] + q[start + 1..end];
    Slices(q, copied, start, end);
  }

  lemma TailSource(pieces: seq<Piece>, q: string, copied: nat, end: nat)
    requires copied <= end <= |q| && Source(pieces) == q[copied..end]
    ensures Source(pieces + [Lit(q[end..])]) == q[copied..|q|]
  {
    assert q[end..] == q[end..|q|];
    SourceMore(pieces, [Lit(q[end..])]);
    SourceOne(Lit(q[end..]));
    Slices(q, copied, end, |q|);
  }

  lemma StepSource(q: string, c: Cursor)
    requires Good(q, c) && c.i < |q| && Step(q, c).Stepped?
    ensures var r := Step(q, c); c.copied <= r.next.copied <= |q| && Source(r.pieces) == q[c.copied..r.next.copied]
  {
    hide Source, EndStep, Advance;
    SourceNone(q, c.copied);
    var u := Advance(q, c.i, c.lex);
    if !(u.skip || Inside(u.lex)) {
      EndSource(q, c.(lex := u.lex, skip := true));
      EndSource(q, c.(lex := u.lex, skip := false));
    }
  }

  /** Whatever is cut off between two copy points is the template text between them. */
  lemma {:induction false} ScanSource(q: string, c: Cursor)
    requires Good(q, c) && Scan(q, c).Lexed?
    ensures var l := Scan(q, c); c.copied <= l.copied <= |q| && Source(l.pieces) == q[c.copied..l.copied]
    decreases |q| - c.i
  {
    hide Step, Source;
    if c.i >= |q| {
      SourceNone(q, c.copied);
    } else {
      StepGood(q, c);
      var r := Step(q, c);
      ScanSource(q, r.next);
      StepSource(q, c);
      SourceMore(r.pieces, Scan(q, r.next).pieces);
      Slices(q, c.copied, r.next.copied, Scan(q, r.next).copied);
    }
  }

  /** A successful translation is the template with its parameters replaced, up to the last copy point. */
  lemma LiteralCopied(q: string)
    requires Scan(q, START).Lexed?
    ensures var l := Scan(q, START); l.copied <= |q| && Source(l.pieces) == q[..l.copied]
  {
    ScanSource(q, START);
    assert q[0..Scan(q, START).copied] == q[..Scan(q, START).copied];
  }

  // ----- when the tail is lost

  /** The last character of the template is outside strings and comments and not part of a comment mark. */
  ghost predicate PlainAtEnd(q: string, i: nat, lex: Lex)
    decreases |q| - i
  {
    i < |q| &&
    var u := Advance(q, i, lex);
    if u.i + 1 >= |q| then !u.skip && !Inside(u.lex) else PlainAtEnd(q, u.i + 1, u.lex)
  }

  lemma {:induction false} TailFrom(q: string, c: Cursor)
    requires Good(q, c) && c.i < |q| && Scan(q, c).Lexed?
    ensures Scan(q, c).copied == |q| <==> PlainAtEnd(q, c.i, c.lex) && q[|q| - 1] != ':' && q[|q| - 1] != '@'
    decreases |q| - c.i
  {
    hide Step, PlainAtEnd;
    StepGood(q, c);
    var r := Step(q, c);
    TailStep(q, c);
    if r.next.i < |q| {
      TailFrom(q, r.next);
    }
  }

  lemma TailStep(q: string, c: Cursor)
    requires Good(q, c) && c.i < |q| && Step(q, c).Stepped?
    ensures var next := Step(q, c).next;
            && next.i <= |q|
            && (next.i < |q| ==> PlainAtEnd(q, next.i, next.lex) == PlainAtEnd(q, c.i, c.lex))
            && (next.i == |q| ==>
                  (next.copied == |q| <==> PlainAtEnd(q, c.i, c.lex) && q[|q| - 1] != ':' && q[|q| - 1] != '@'))
  {
    hide PlainAtEnd, EndStep, Advance;
    var u := Advance(q, c.i, c.lex);
    PlainUnfold(q, c.i, c.lex);
    if !(u.skip || Inside(u.lex)) {
      EndTail(q, c.(lex := u.lex, skip := true));
      EndTail(q, c.(lex := u.lex, skip := false));
      if q[c.i] == ':' && c.i + 1 < |q| && q[c.i + 1] == ':' {
        ColonAdvance(q, c.i + 1, u.lex);
        PlainUnfold(q, c.i + 1, u.lex);
      }
    }
  }

  lemma PlainUnfold(q: string, i: nat, lex: Lex)
    requires i < |q|
    ensures var u := Advance(q, i, lex);
            PlainAtEnd(q, i, lex) == if u.i + 1 >= |q| then !u.skip && !Inside(u.lex) else PlainAtEnd(q, u.i + 1, u.lex)
  {
  }

  lemma ColonAdvance(q: string, i: nat, lex: Lex)
    requires i < |q| && q[i] == ':' && !Inside(lex)
    ensures Advance(q, i, lex) == Moved(lex, i, false)
  {
  }

  lemma EndTail(q: string, c: Cursor)
    requires Good(q, c) && c.i < |q|
    ensures var next := EndStep(q, c).next;
            next.i == c.i + 1 && next.lex == c.lex && (next.i == |q| ==> next.copied == |q|)
  {
  }

  /** The whole template is translated exactly when its last character is plain SQL text. */
  lemma TailKept(q: string)
    requires Scan(q, START).Lexed?
    ensures Scan(q, START).copied == |q| <==> q == "" || (PlainAtEnd(q, 0, PLAIN) && q[|q| - 1] != ':' && q[|q| - 1] != '@')
  {
    if q != "" {
      TailFrom(q, START);
    }
  }

  /** Otherwise the text after the last parameter is lost: all of it when the template has no parameter. */
  lemma TailLost()
    ensures Scan("a::", START) == Lexed([], 0)
  {
    var q := "a::";
    var c1 := Cursor(1, -1, 0, PLAIN, false);
    assert Step(q, START) == Stepped(c1, []);
    assert Step(q, c1) == Stepped(Cursor(3, -1, 0, PLAIN, false), []);
    assert Scan(q, c1) == Lexed([], 0);
  }

  // ----- names

  /** A reference has a sigil and a name of 1 to 255 characters. */
  ghost predicate Proper(p: Piece)
  {
    p.Par? ==> (p.sigil == ':' || p.sigil == '@') && 1 <= |p.name| <= 255
  }

  lemma {:induction false} ProperNames(q: string, c: Cursor)
    requires Good(q, c)
    ensures var l := Scan(q, c); l.Lexed? ==> forall i :: 0 <= i < |l.pieces| ==> Proper(l.pieces[i])
    decreases |q| - c.i
  {
    if c.i < |q| {
      StepGood(q, c);
      StepProper(q, c);
      hide Step;
      if Step(q, c).Stepped? {
        ProperNames(q, Step(q, c).next);
      }
    }
  }

  lemma StepProper(q: string, c: Cursor)
    requires Good(q, c) && c.i < |q|
    ensures var r := Step(q, c); r.Stepped? ==> forall i :: 0 <= i < |r.pieces| ==> Proper(r.pieces[i])
  {
    hide Advance, EndStep;
    var u := Advance(q, c.i, c.lex);
    EndProper(q, c.(lex := u.lex, skip := true));
    EndProper(q, c.(lex := u.lex, skip := false));
  }

  lemma EndProper(q: string, c: Cursor)
    requires Good(q, c) && c.i < |q|
    ensures forall i :: 0 <= i < |EndStep(q, c).pieces| ==> Proper(EndStep(q, c).pieces[i])
  {
    hide IsSpecial;
  }

  // ----- placeholders and binds

  ghost function UpFrom(n: nat, count: nat): seq<nat>
    decreases count
  {
    if count == 0 then [] else [n] + UpFrom(n + 1, count - 1)
  }

  lemma {:induction false} UpFromMore(n: nat, a: nat, b: nat)
    ensures UpFrom(n, a) + UpFrom(n + a, b) == UpFrom(n, a + b)
    decreases a
  {
    if a > 0 {
      UpFromMore(n + 1, a - 1, b);
    }
  }

  ghost function NumberOf(o: Out): seq<nat>
  {
    if o.Hole? then [o.k] else []
  }

  /** The numbers of the placeholders, from left to right. */
  ghost function Numbers(outs: seq<Out>): seq<nat>
  {
    if outs == [] then [] else NumberOf(outs[0]) + Numbers(outs[1..])
  }

  lemma {:induction false} NumbersMore(a: seq<Out>, b: seq<Out>)
    ensures Numbers(a + b) == Numbers(a) + Numbers(b)
  {
    if a == [] {
      assert a + b == b;
    } else {
      assert (a + b)[1..] == a[1..] + b;
      NumbersMore(a[1..], b);
      Assoc(NumberOf(a[0]), Numbers(a[1..]), Numbers(b));
    }
  }

  /** The rendering numbers its placeholders from n + 1 on, one for each bound value. */
  ghost predicate InOrder(r: Rendered, n: nat)
  {
    r.Rendered? ==> Numbers(r.outs) == UpFrom(n + 1, |r.binds|)
  }

  lemma InOrderJoin(a: Rendered, b: Rendered, n: nat)
    requires a.Rendered? && InOrder(a, n) && InOrder(b, n + |a.binds|)
    ensures InOrder(Join(a, b), n)
  {
    if b.Rendered? {
      NumbersMore(a.outs, b.outs);
      UpFromMore(n + 1, |a.binds|, |b.binds|);
    }
  }

  lemma InOrderField(sigil: char, f: Field, n: nat)
    ensures InOrder(RenderField(sigil, f, n), n)
  {
    var r := RenderField(sigil, f, n);
    if r.Rendered? {
      assert r.outs[1..] == [];
      assert Numbers([]) == [];
    }
  }

  lemma {:induction false} InOrderItems(sigil: char, items: seq<Option<Field>>, first: bool, n: nat)
    ensures InOrder(RenderItems(sigil, items, first, n), n)
    decreases items
  {
    if items != [] && items[0].Some? && RenderField(sigil, items[0].value, n).Rendered? {
      var r := RenderField(sigil, items[0].value, n);
      var comma := if first then Rendered([], []) else Rendered([Text(",")], []);
      InOrderItems(sigil, items[1..], false, n + |r.binds|);
      InOrderField(sigil, items[0].value, n);
      ItemsStep(sigil, items, first, n);
      assert InOrder(comma, n) by {
        assert [Text(",")][1..] == [];
      }
      hide RenderField, RenderItems, InOrder;
      InOrderJoin(comma, r, n);
      JoinBinds(comma, r);
      InOrderJoin(Join(comma, r), RenderItems(sigil, items[1..], false, n + |r.binds|), n);
    }
  }

  lemma JoinBinds(comma: Rendered, r: Rendered)
    requires comma.Rendered? && comma.binds == [] && r.Rendered?
    ensures Join(comma, r).Rendered? && Join(comma, r).binds == r.binds
  {
  }

  /** The k-th placeholder of a translation is $k, and there are as many as bound values. */
  lemma {:induction false} PlaceholdersInOrder(pieces: seq<Piece>, params: seq<Field>, n: nat)
    ensures InOrder(Render(pieces, params, n), n)
    decreases pieces
  {
    hide RenderPiece;
    if pieces == [] {
      assert InOrder(Rendered([], []), n);
    } else {
      hide InOrder;
      var r := RenderPiece(pieces[0], params, n);
      InOrderPiece(pieces[0], params, n);
      if r.Rendered? {
        PlaceholdersInOrder(pieces[1..], params, n + |r.binds|);
        InOrderJoin(r, Render(pieces[1..], params, n + |r.binds|), n);
      }
    }
  }

  lemma InOrderPiece(p: Piece, params: seq<Field>, n: nat)
    ensures InOrder(RenderPiece(p, params, n), n)
  {
    match p
    case Lit(t) =>
      assert [Text(t)][1..] == [] && Numbers([]) == [];
      assert Numbers([Text(t)]) == [];
    case Par(sigil, name) =>
      hide InOrder, RenderField, RenderItems;
      var f := Find(params, if IsList(name) then name[|LIST|..] else name);
      if f.Some? {
        InOrderField(sigil, f.value, n);
        InOrderItems(sigil, f.value.items, true, n);
      }
      assert InOrder(NotRendered, n) by {
        InOrderNone(n);
      }
  }

  lemma InOrderNone(n: nat)
    ensures InOrder(NotRendered, n)
  {
  }

  // ----- putting the values back

  ghost function FillOne(o: Out, binds: seq<Field>, val: Field -> string): string
  {
    match o
    case Text(s) => s
    case Hole(k, suffix) => if 1 <= k <= |binds| then val(binds[k - 1]) + suffix else ""
  }

  /** The translated query with each placeholder $k replaced by the k-th bound value. */
  ghost function Fill(outs: seq<Out>, binds: seq<Field>, val: Field -> string): string
  {
    if outs == [] then "" else FillOne(outs[0], binds, val) + Fill(outs[1..], binds, val)
  }

  lemma {:induction false} FillMore(a: seq<Out>, b: seq<Out>, binds: seq<Field>, val: Field -> string)
    ensures Fill(a + b, binds, val) == Fill(a, binds, val) + Fill(b, binds, val)
  {
    if a == [] {
      assert a + b == b;
    } else {
      assert (a + b)[1..] == a[1..] + b;
      FillMore(a[1..], b, binds, val);
      Assoc(FillOne(a[0], binds, val), Fill(a[1..], binds, val), Fill(b, binds, val));
    }
  }

  /** The value of a parameter, as substituted in the template. */
  ghost function Substituted(sigil: char, f: Field, val: Field -> string): Option<string>
  {
    if sigil == '@' then (if f.raw then f.text else if f.text.None? then None else f.ident)
    else if f.isNull then Some("NULL")
    else if f.raw then f.text
    else if f.text.None? then None
    else Some(val(f) + f.suffix)
  }

  ghost function Concat(a: Option<string>, b: Option<string>): Option<string>
  {
    if a.None? || b.None? then None else Some(a.value + b.value)
  }

  /** The values of a list, separated by commas. */
  ghost function SubstitutedItems(sigil: char, items: seq<Option<Field>>, val: Field -> string): Option<string>
    requires items != []
  {
    var one := if items[0].None? then None else Substituted(sigil, items[0].value, val);
    if |items| == 1 then one
    else Concat(one, Concat(Some(","), SubstitutedItems(sigil, items[1..], val)))
  }

  /** The first parameter of that name. */
  ghost predicate Named(params: seq<Field>, name: string, f: Option<Field>)
  {
    match f
    case None => forall i :: 0 <= i < |params| ==> params[i].name != name
    case Some(field) => exists i :: 0 <= i < |params| && params[i] == field && field.name == name && forall j :: 0 <= j < i ==> params[j].name != name
  }

  lemma {:induction false} FindNamed(params: seq<Field>, name: string)
    ensures Named(params, name, Find(params, name))
  {
    if params != [] {
      if params[0].name == name {
        assert params[0] == Find(params, name).value;
      } else {
        FindNamed(params[1..], name);
        var f := Find(params[1..], name);
        assert forall i :: 0 < i < |params| ==> params[i] == params[1..][i - 1];
        if f.Some? {
          var i :| 0 <= i < |params| - 1 && params[1..][i] == f.value && forall j :: 0 <= j < i ==> params[1..][j].name != name;
          assert params[i + 1] == f.value;
        }
      }
    }
  }

  /** A name that starts with list__ means the array of the name behind that. */
  ghost function SubstitutedParam(sigil: char, name: string, params: seq<Field>, val: Field -> string): Option<string>
  {
    var list := "list__" <= name;
    var f := Find(params, if list then name[6..] else name);
    if f.None? then None
    else if !list then Substituted(sigil, f.value, val)
    else if !f.value.isArray || f.value.items == [] then None
    else SubstitutedItems(sigil, f.value.items, val)
  }

  /** The template with the values of its parameters in their places. */
  ghost function Direct(pieces: seq<Piece>, params: seq<Field>, val: Field -> string): Option<string>
  {
    if pieces == [] then Some("")
    else Concat(match pieces[0] case Lit(t) => Some(t) case Par(sigil, name) => SubstitutedParam(sigil, name, params, val),
                Direct(pieces[1..], params, val))
  }

  ghost predicate Stands(binds: seq<Field>, n: nat, part: seq<Field>)
  {
    n + |part| <= |binds| && binds[n..n + |part|] == part
  }

  /** The rendering is defined when the text is, and filling its placeholders, whose values stand
      from n on in the bind list, gives the text. */
  ghost predicate Fills(r: Rendered, n: nat, text: Option<string>, val: Field -> string)
  {
    && (r.Rendered? <==> text.Some?)
    && (r.Rendered? ==> forall binds: seq<Field> :: Stands(binds, n, r.binds) ==>
          Fill(r.outs, binds, val) == text.value)
  }

  lemma FillsText(t: string, n: nat, val: Field -> string)
    ensures Fills(Rendered([Text(t)], []), n, Some(t), val)
  {
    assert [Text(t)][1..] == [];
  }

  lemma FillsJoin(a: Rendered, b: Rendered, n: nat, s: Option<string>, t: Option<string>, val: Field -> string)
    requires a.Rendered? && Fills(a, n, s, val) && Fills(b, n + |a.binds|, t, val)
    ensures Fills(Join(a, b), n, Concat(s, t), val)
  {
    hide Fill, Stands;
    if b.Rendered? {
      var r := Join(a, b);
      forall binds: seq<Field> | Stands(binds, n, r.binds)
        ensures Fill(r.outs, binds, val) == s.value + t.value
      {
        BindsSplit(binds, n, a.binds, b.binds);
        FillMore(a.outs, b.outs, binds, val);
      }
    }
  }

  lemma BindsSplit(binds: seq<Field>, n: nat, a: seq<Field>, b: seq<Field>)
    requires Stands(binds, n, a + b)
    ensures Stands(binds, n, a) && Stands(binds, n + |a|, b)
  {
    assert binds[n..n + |a|] == binds[n..n + |a + b|][..|a|];
    assert binds[n + |a|..n + |a| + |b|] == binds[n..n + |a + b|][|a|..];
  }

  lemma FillsField(sigil: char, f: Field, n: nat, val: Field -> string)
    ensures Fills(RenderField(sigil, f, n), n, Substituted(sigil, f, val), val)
  {
    var r := RenderField(sigil, f, n);
    if r.Rendered? {
      assert r.outs[1..] == [];
      forall binds: seq<Field> | Stands(binds, n, r.binds)
        ensures Fill(r.outs, binds, val) == Substituted(sigil, f, val).value
      {
        if r.binds != [] {
          assert binds[n..n + 1][0] == f;
        }
      }
    }
  }

  lemma FillsNothing(n: nat, val: Field -> string)
    ensures Fills(Rendered([], []), n, Some(""), val)
  {
  }

  lemma ConcatLaws(a: Option<string>, b: Option<string>, c: Option<string>)
    ensures Concat(Concat(a, b), c) == Concat(a, Concat(b, c)) && Concat(a, Some("")) == a && Concat(Some(""), a) == a
  {
    if a.Some? && b.Some? && c.Some? {
      Assoc(a.value, b.value, c.value);
    }
    assert a.Some? ==> a.value + "" == a.value && "" + a.value == a.value;
  }

  lemma {:induction false} FillsItems(sigil: char, items: seq<Option<Field>>, first: bool, n: nat, val: Field -> string)
    requires items != []
    ensures var text := SubstitutedItems(sigil, items, val);
            Fills(RenderItems(sigil, items, first, n), n, if first then text else Concat(Some(","), text), val)
    decreases items
  {
    hide Fills, RenderField, Substituted;
    FillsNotRendered(n, val);
    if items[0].Some? {
      var f := items[0].value;
      FillsField(sigil, f, n, val);
      var r, one := RenderField(sigil, f, n), Substituted(sigil, f, val);
      FillsNone(r, n, one, val);
      if r.Rendered? {
        var m := n + |r.binds|;
        var rest := RenderItems(sigil, items[1..], false, m);
        var after := if |items| == 1 then Some("") else Concat(Some(","), SubstitutedItems(sigil, items[1..], val));
        if |items| == 1 {
          FillsNothing(m, val);
        } else {
          FillsItems(sigil, items[1..], false, m, val);
        }
        ItemsStep(sigil, items, first, n);
        FillsItem(first, r, one, rest, after, n, val);
        ConcatLaws(one, after, after);
      }
    }
  }

  lemma FillsItem(first: bool, r: Rendered, one: Option<string>, rest: Rendered, after: Option<string>, n: nat, val: Field -> string)
    requires r.Rendered? && Fills(r, n, one, val) && Fills(rest, n + |r.binds|, after, val)
    ensures var comma, text := if first then Rendered([], []) else Rendered([Text(",")], []), Concat(one, after);
            Fills(Join(Join(comma, r), rest), n, if first then text else Concat(Some(","), text), val)
  {
    hide Fills;
    var comma, sep := if first then Rendered([], []) else Rendered([Text(",")], []), if first then Some("") else Some(",");
    FillsNothing(n, val);
    FillsText(",", n, val);
    FillsJoin(comma, r, n, sep, one, val);
    JoinBinds(comma, r);
    FillsJoin(Join(comma, r), rest, n, Concat(sep, one), after, val);
    ConcatLaws(sep, one, after);
    ConcatLaws(Concat(one, after), after, after);
  }

  lemma FillsParam(sigil: char, name: string, params: seq<Field>, n: nat, val: Field -> string)
    ensures Fills(RenderParam(sigil, name, params, n), n, SubstitutedParam(sigil, name, params, val), val)
  {
    hide RenderField, RenderItems, Substituted, SubstitutedItems;
    var f := Find(params, if IsList(name) then name[|LIST|..] else name);
    if f.Some? {
      FillsField(sigil, f.value, n, val);
      if f.value.items != [] {
        FillsItems(sigil, f.value.items, true, n, val);
      }
    }
  }

  lemma {:induction false} FillsAll(pieces: seq<Piece>, params: seq<Field>, n: nat, val: Field -> string)
    ensures Fills(Render(pieces, params, n), n, Direct(pieces, params, val), val)
    decreases pieces
  {
    hide RenderParam, SubstitutedParam, Fills;
    if pieces == [] {
      FillsNothing(n, val);
    } else {
      var r := RenderPiece(pieces[0], params, n);
      if pieces[0].Lit? {
        FillsText(pieces[0].text, n, val);
      } else {
        FillsParam(pieces[0].sigil, pieces[0].name, params, n, val);
      }
      var s := if pieces[0].Lit? then Some(pieces[0].text) else SubstitutedParam(pieces[0].sigil, pieces[0].name, params, val);
      FillsNone(r, n, s, val);
      if r.Rendered? {
        FillsAll(pieces[1..], params, n + |r.binds|, val);
        FillsJoin(r, Render(pieces[1..], params, n + |r.binds|), n, s, Direct(pieces[1..], params, val), val);
      } else {
        FillsNotRendered(n, val);
      }
    }
  }

  lemma FillsNone(r: Rendered, n: nat, text: Option<string>, val: Field -> string)
    requires Fills(r, n, text, val)
    ensures r.Rendered? <==> text.Some?
  {
  }

  lemma FillsNotRendered(n: nat, val: Field -> string)
    ensures Fills(NotRendered, n, None, val)
  {
  }

  /** A template translates exactly when its values can be substituted, and then the translated
      query with the bound values put back is the template with the values substituted. */
  lemma BindsMatchPlaceholders(pieces: seq<Piece>, params: seq<Field>, val: Field -> string)
    ensures var r := Render(pieces, params, 0);
            && (r.Rendered? <==> Direct(pieces, params, val).Some?)
            && (r.Rendered? ==> Fill(r.outs, r.binds, val) == Direct(pieces, params, val).value)
            && (r.Rendered? ==> Numbers(r.outs) == UpFrom(1, |r.binds|))
  {
    FillsAll(pieces, params, 0, val);
    PlaceholdersInOrder(pieces, params, 0);
    hide Render, Direct;
    var r := Render(pieces, params, 0);
    if r.Rendered? {
      assert r.binds[0..0 + |r.binds|] == r.binds;
    }
  }
}
