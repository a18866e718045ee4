/** Templates with named parameters become SQL with numbered placeholders and an ordered list of
    values to bind (framework/database/dbquery.c). */
module SqlTemplate {
  import opened Common
  import opened Decimals
  import opened Sequences

  // ----- characters

  /** ispunct_custom. */
  predicate IsPunct(c: char)
  {
    ' ' < c <= '~' && !IsDigit(c) && !('A' <= c <= 'Z') && !('a' <= c <= 'z') && c != '_'
  }

  /** What ends a parameter name: punctuation, a control character or a space. */
  predicate IsSpecial(c: char)
  {
    IsPunct(c) || c <= ' ' || c == '\U{7F}'
  }

  predicate IsQuote(c: char)
  {
    c == '\'' || c == '"'
  }

  // ----- strings and comments

  datatype Lex = Lex(inString: bool, quote: char, line: bool, block: bool)

  const PLAIN := Lex(false, '\0', false, false)

  predicate Inside(lex: Lex)
  {
    lex.inString || lex.line || lex.block
  }

  /** The new lexer state, the position it moved to, and whether the character is used up. */
  datatype Moved = Moved(lex: Lex, i: nat, skip: bool)

  function AdvanceString(q: string, pos: nat, lex: Lex): Moved
    requires pos < |q|
  {
    if lex.line || lex.block || !IsQuote(q[pos]) || (pos > 0 && q[pos - 1] == '\\') then Moved(lex, pos, false)
    else if !lex.inString then Moved(lex.(inString := true, quote := q[pos]), pos, false)
    else if q[pos] != lex.quote then Moved(lex, pos, false)
    else if pos + 1 < |q| && q[pos + 1] == lex.quote then Moved(lex, pos + 1, false)
    else Moved(lex.(inString := false), pos, false)
  }

  /** __update_sql_parse_state. */
  function Advance(q: string, pos: nat, lex: Lex): (r: Moved)
    requires pos < |q|
    ensures pos <= r.i < |q| && (r.i > pos && !r.skip ==> r.lex.inString)
  {
    var s := AdvanceString(q, pos, lex);
    if s.lex.inString then s
    else if !s.lex.block && pos + 1 < |q| && q[pos] == '-' && q[pos + 1] == '-' then
      Moved(s.lex.(line := true), pos + 1, true)
    else if s.lex.line && q[pos] == '\n' then Moved(s.lex.(line := false), pos, true)
    else if !s.lex.line && pos + 1 < |q| && q[pos] == '/' && q[pos + 1] == '*' then
      Moved(s.lex.(block := true), pos + 1, true)
    else if s.lex.block && pos > 0 && q[pos - 1] == '*' && q[pos] == '/' then Moved(s.lex.(block := false), pos, true)
    else s
  }

  // ----- cutting a template into literal text and parameters

  datatype Piece = Lit(text: string) | Par(sigil: char, name: string)

  /** The scan at position i: where a pending parameter starts (or -1), how far the template has
      been copied, the lexer state, and whether a second colon of a cast is to be skipped. */
  datatype Cursor = Cursor(i: nat, start: int, copied: nat, lex: Lex, skip: bool)

  const START := Cursor(0, -1, 0, PLAIN, false)

  const MAX_PARAM_NAME := 256

  ghost predicate Good(q: string, c: Cursor)
  {
    && c.i <= |q| && c.copied <= c.i && -1 <= c.start < c.i
    && (c.start >= 0 ==> c.copied <= c.start && (q[c.start] == ':' || q[c.start] == '@'))
  }

  datatype Stepped = Broken | Stepped(next: Cursor, pieces: seq<Piece>)

  /** The end of a pending parameter, if this is one, and the tail of the template at its last character. */
  function EndStep(q: string, c: Cursor): (r: Stepped)
    requires Good(q, c) && c.i < |q|
    ensures r.Stepped?
  {
    var last, special := c.i == |q| - 1, IsSpecial(q[c.i]);
    var ends := c.start >= 0 && (special || last);
    var end := if last && !special then c.i + 1 else c.i;
    var named := ends && 0 < end - c.start - 1 < MAX_PARAM_NAME;
    var found := if named then [Lit(q[c.copied..c.start]), Par(q[c.start], q[c.start + 1..end])] else [];
    var copied, start := if named then end else c.copied, if ends then -1 else c.start;
    if start == -1 && last then
      Stepped(c.(i := c.i + 1, start := -1, copied := |q|), found + [Lit(q[copied..])])
    else
      Stepped(c.(i := c.i + 1, start := start, copied := copied), found)
  }

  /** One round of the loop of parse_sql_parameters. */
  function Step(q: string, c: Cursor): Stepped
    requires Good(q, c) && c.i < |q|
  {
    var u := Advance(q, c.i, c.lex);
    if u.skip || Inside(u.lex) then Stepped(c.(i := u.i + 1, lex := u.lex), [])
    else
      var c := c.(lex := u.lex);
      var cast := q[c.i] == ':' && c.i + 1 < |q| && q[c.i + 1] == ':';
      if cast && c.start == -1 then Stepped(c.(i := c.i + 2), [])
      else if cast then EndStep(q, c.(skip := true))
      else if c.skip && q[c.i] == ':' then Stepped(c.(i := c.i + 1, skip := false), [])
      else if q[c.i] == ':' || q[c.i] == '@' then
        if c.start != -1 then Broken else Stepped(c.(i := c.i + 1, start := c.i, skip := false), [])
      else EndStep(q, c.(skip := false))
  }

  lemma StepGood(q: string, c: Cursor)
    requires Good(q, c) && c.i < |q|
    ensures var r := Step(q, c); r.Stepped? ==> Good(q, r.next) && r.next.i > c.i
  {
  }

  /** The pieces, and how far they reach into the template. */
  datatype Lexed = Failed | Lexed(pieces: seq<Piece>, copied: nat)

  ghost function Scan(q: string, c: Cursor): Lexed
    requires Good(q, c)
    decreases |q| - c.i
  {
    if c.i >= |q| then Lexed([], c.copied)
    else
      StepGood(q, c);
      match Step(q, c)
      case Broken => Failed
      case Stepped(next, pieces) => After(pieces, Scan(q, next))
  }

  ghost function After(pieces: seq<Piece>, l: Lexed): Lexed
  {
    if l.Failed? then l else Lexed(pieces + l.pieces, l.copied)
  }

  // ----- parameters

  /** A parameter value, with what the foreign functions give on it: its text, the text escaped as
      an identifier, and the cast of its type. Items are the elements of an array field, None where
      an element cannot be made into a field. */
  datatype Field = Field(name: string, isNull: bool, raw: bool, text: Option<string>, ident: Option<string>, suffix: string,
                         isArray: bool, items: seq<Option<Field>>)

  datatype Out = Text(s: string) | Hole(k: nat, suffix: string)

  datatype Rendered = NotRendered | Rendered(outs: seq<Out>, binds: seq<Field>)

  /** __build_query_processor, n values being bound already. */
  function RenderField(sigil: char, f: Field, n: nat): Rendered
  {
    if sigil == '@' then
      if f.text.None? then NotRendered
      else if f.raw then Rendered([Text(f.text.value)], [])
      else if f.ident.None? then NotRendered
      else Rendered([Text(f.ident.value)], [])
    else if f.isNull then Rendered([Text("NULL")], [])
    else if f.text.None? then NotRendered
    else if f.raw then Rendered([Text(f.text.value)], [])
    else Rendered([Hole(n + 1, f.suffix)], [f])
  }

  function RenderItems(sigil: char, items: seq<Option<Field>>, first: bool, n: nat): Rendered
  {
    if items == [] then Rendered([], [])
    else if items[0].None? then NotRendered
    else
      var r := RenderField(sigil, items[0].value, n);
      if r.NotRendered? then r
      else Join(Rendered((if first then [] else [Text(",")]) + r.outs, r.binds),
                RenderItems(sigil, items[1..], false, n + |r.binds|))
  }

  function Join(a: Rendered, b: Rendered): Rendered
  {
    if a.NotRendered? || b.NotRendered? then NotRendered else Rendered(a.outs + b.outs, a.binds + b.binds)
  }

  const LIST := "list__"

  function Find(params: seq<Field>, name: string): Option<Field>
  {
    if params == [] then None else if params[0].name == name then Some(params[0]) else Find(params[1..], name)
  }

  predicate IsList(name: string)
  {
    |name| >= |LIST| && name[..|LIST|] == LIST
  }

  function RenderParam(sigil: char, name: string, params: seq<Field>, n: nat): Rendered
  {
    var f := Find(params, if IsList(name) then name[|LIST|..] else name);
    if f.None? then NotRendered
    else if !IsList(name) then RenderField(sigil, f.value, n)
    else if !f.value.isArray || f.value.items == [] then NotRendered
    else RenderItems(sigil, f.value.items, true, n)
  }

  function RenderPiece(p: Piece, params: seq<Field>, n: nat): Rendered
  {
    match p
    case Lit(t) => Rendered([Text(t)], [])
    case Par(sigil, name) => RenderParam(sigil, name, params, n)
  }

  function Render(pieces: seq<Piece>, params: seq<Field>, n: nat): Rendered
  {
    if pieces == [] then Rendered([], [])
    else
      var r := RenderPiece(pieces[0], params, n);
      if r.NotRendered? then r else Join(r, Render(pieces[1..], params, n + |r.binds|))
  }

  function OutText(o: Out): string
  {
    match o
    case Text(s) => s
    case Hole(k, suffix) => "$" + Digits(k) + suffix
  }

  function Flat(outs: seq<Out>): string
  {
    if outs == [] then "" else OutText(outs[0]) + Flat(outs[1..])
  }

  lemma {:induction false} FlatMore(a: seq<Out>, b: seq<Out>)
    ensures Flat(a + b) == Flat(a) + Flat(b)
  {
    if a == [] {
      assert a + b == b;
    } else {
      assert (a + b)[1..] == a[1..] + b;
      FlatMore(a[1..], b);
    }
  }

  lemma {:induction false} RenderMore(a: seq<Piece>, b: seq<Piece>, params: seq<Field>, n: nat)
    ensures var r := Render(a, params, n);
            Render(a + b, params, n) == if r.NotRendered? then r else Join(r, Render(b, params, n + |r.binds|))
  {
    hide RenderPiece;
    if a == [] {
      assert a + b == b;
      JoinNothing(Render(b, params, n));
    } else {
      assert (a + b)[1..] == a[1..] + b;
      var r := RenderPiece(a[0], params, n);
      if r.Rendered? {
        var m := n + |r.binds|;
        RenderMore(a[1..], b, params, m);
        var r1 := Render(a[1..], params, m);
        if r1.Rendered? {
          JoinAssoc(r, r1, Render(b, params, m + |r1.binds|));
        }
      }
    }
  }

  lemma JoinNothing(r: Rendered)
    ensures Join(Rendered([], []), r) == r
  {
    assert r.Rendered? ==> [] + r.outs == r.outs && [] + r.binds == r.binds;
  }

  lemma JoinAssoc(a: Rendered, b: Rendered, c: Rendered)
    ensures Join(Join(a, b), c) == Join(a, Join(b, c))
  {
    if a.Rendered? && b.Rendered? && c.Rendered? {
      assert (a.outs + b.outs) + c.outs == a.outs + (b.outs + c.outs);
      assert (a.binds + b.binds) + c.binds == a.binds + (b.binds + c.binds);
    }
  }

  // ----- the translator

  lemma FlatOne(o: Out)
    ensures Flat([o]) == OutText(o)
  {
    assert [o][1..] == [];
  }

  /** The query, placeholder counter and bind array after a rendering was appended to them. */
  ghost predicate Wrote(sql0: string, idx0: nat, binds0: seq<Field>, r: Rendered, sql: string, idx: nat, binds: seq<Field>)
  {
    r.Rendered? && sql == sql0 + Flat(r.outs) && idx == idx0 + |r.binds| && binds == binds0 + r.binds
  }

  lemma WroteNothing(sql: string, idx: nat, binds: seq<Field>)
    ensures Wrote(sql, idx, binds, Rendered([], []), sql, idx, binds)
  {
  }

  lemma WroteText(sql: string, idx: nat, binds: seq<Field>, t: string)
    ensures Wrote(sql, idx, binds, Rendered([Text(t)], []), sql + t, idx, binds)
  {
    FlatOne(Text(t));
  }

  lemma WroteThen(sql0: string, idx0: nat, binds0: seq<Field>, r: Rendered, sql1: string, idx1: nat, binds1: seq<Field>,
                  r': Rendered, sql2: string, idx2: nat, binds2: seq<Field>)
    requires Wrote(sql0, idx0, binds0, r, sql1, idx1, binds1) && Wrote(sql1, idx1, binds1, r', sql2, idx2, binds2)
    ensures Wrote(sql0, idx0, binds0, Join(r, r'), sql2, idx2, binds2)
  {
    FlatMore(r.outs, r'.outs);
    hide Flat;
    Assoc(sql0, Flat(r.outs), Flat(r'.outs));
    Assoc(binds0, r.binds, r'.binds);
  }

  /** __build_query_processor on the growing query, placeholder counter and bind array. */
  method Process(sigil: char, f: Field, sql0: string, idx0: nat, binds0: seq<Field>)
    returns (ok: bool, sql: string, idx: nat, binds: seq<Field>)
    requires sigil == ':' || sigil == '@'
    ensures ok == RenderField(sigil, f, idx0).Rendered?
    ensures ok ==> Wrote(sql0, idx0, binds0, RenderField(sigil, f, idx0), sql, idx, binds)
  {
    ok, sql, idx, binds := true, sql0, idx0, binds0;
    if sigil == '@' {
      if f.text.None? {
        return false, sql, idx, binds;
      }
      if f.raw {
        FlatOne(Text(f.text.value));
        sql := sql + f.text.value;
        return;
      }
      if f.ident.None? {
        return false, sql, idx, binds;
      }
      FlatOne(Text(f.ident.value));
      sql := sql + f.ident.value;
      return;
    }
    if f.isNull {
      FlatOne(Text("NULL"));
      sql := sql + "NULL";
      return;
    }
    if f.text.None? {
      return false, sql, idx, binds;
    }
    if f.raw {
      FlatOne(Text(f.text.value));
      sql := sql + f.text.value;
      return;
    }
    idx := idx + 1;
    FlatOne(Hole(idx, f.suffix));
    sql := sql + ("$" + Digits(idx) + f.suffix);
    binds := binds + [f];
  }

  lemma ItemsStep(sigil: char, items: seq<Option<Field>>, first: bool, n: nat)
    requires items != [] && items[0].Some? && RenderField(sigil, items[0].value, n).Rendered?
    ensures var comma, r := if first then Rendered([], []) else Rendered([Text(",")], []), RenderField(sigil, items[0].value, n);
            RenderItems(sigil, items, first, n) == Join(Join(comma, r), RenderItems(sigil, items[1..], false, n + |r.binds|))
  {
    hide RenderField;
    JoinNothing(RenderField(sigil, items[0].value, n));
    assert [] + RenderField(sigil, items[0].value, n).binds == RenderField(sigil, items[0].value, n).binds;
  }

  /** The elements of a list parameter, separated by commas. */
  method ProcessList(sigil: char, items: seq<Option<Field>>, sql0: string, idx0: nat, binds0: seq<Field>)
    returns (ok: bool, sql: string, idx: nat, binds: seq<Field>)
    requires sigil == ':' || sigil == '@'
    ensures ok == RenderItems(sigil, items, true, idx0).Rendered?
    ensures ok ==> Wrote(sql0, idx0, binds0, RenderItems(sigil, items, true, idx0), sql, idx, binds)
  {
    hide RenderField, Wrote;
    ok, sql, idx, binds := true, sql0, idx0, binds0;
    ghost var sofar := Rendered([], []);
    WroteNothing(sql, idx, binds);
    JoinNothing(RenderItems(sigil, items, true, idx0));
    for k := 0 to |items|
      invariant Wrote(sql0, idx0, binds0, sofar, sql, idx, binds)
      invariant RenderItems(sigil, items, true, idx0) == Join(sofar, RenderItems(sigil, items[k..], k == 0, idx))
    {
      assert items[k..][0] == items[k] && items[k..][1..] == items[k + 1..];
      ghost var comma := if k == 0 then Rendered([], []) else Rendered([Text(",")], []);
      ghost var sql1, idx1, binds1 := sql, idx, binds;
      WroteNothing(sql, idx, binds);
      WroteText(sql, idx, binds, ",");
      if k > 0 {
        sql := sql + ",";
      }
      if items[k].None? {
        return false, sql, idx, binds;
      }
      ghost var r := RenderField(sigil, items[k].value, idx);
      ghost var sql2 := sql;
      ok, sql, idx, binds := Process(sigil, items[k].value, sql, idx, binds);
      if !ok {
        return;
      }
      ItemsStep(sigil, items[k..], k == 0, idx1);
      WroteCount(sql2, idx1, binds1, r, sql, idx, binds);
      WroteThen(sql1, idx1, binds1, comma, sql2, idx1, binds1, r, sql, idx, binds);
      WroteThen(sql0, idx0, binds0, sofar, sql1, idx1, binds1, Join(comma, r), sql, idx, binds);
      JoinAssoc(sofar, Join(comma, r), RenderItems(sigil, items[k + 1..], false, idx));
      sofar := Join(sofar, Join(comma, r));
    }
    assert items[|items|..] == [];
    JoinEmpty(sofar);
    WroteCount(sql0, idx0, binds0, sofar, sql, idx, binds);
  }

  lemma WroteCount(sql0: string, idx0: nat, binds0: seq<Field>, r: Rendered, sql: string, idx: nat, binds: seq<Field>)
    requires Wrote(sql0, idx0, binds0, r, sql, idx, binds)
    ensures r.Rendered? && idx == idx0 + |r.binds|
  {
  }

  lemma JoinEmpty(r: Rendered)
    ensures Join(r, Rendered([], [])) == r
  {
    assert r.Rendered? ==> r.outs + [] == r.outs && r.binds + [] == r.binds;
  }

  /** A parameter by its name in the template: the first field of that name, or the elements of one. */
  method ProcessParam(sigil: char, name: string, params: seq<Field>, sql0: string, idx0: nat, binds0: seq<Field>)
    returns (ok: bool, sql: string, idx: nat, binds: seq<Field>)
    requires sigil == ':' || sigil == '@'
    ensures ok == RenderParam(sigil, name, params, idx0).Rendered?
    ensures ok ==> Wrote(sql0, idx0, binds0, RenderParam(sigil, name, params, idx0), sql, idx, binds)
  {
    hide RenderField, RenderItems, Wrote;
    var isList := IsList(name);
    var key := if isList then name[|LIST|..] else name;
    assert params == params[0..];
    for j := 0 to |params|
      invariant Find(params, key) == Find(params[j..], key)
    {
      assert params[j..][0] == params[j] && params[j..][1..] == params[j + 1..];
      if params[j].name == key {
        if isList {
          if !params[j].isArray || |params[j].items| == 0 {
            return false, sql0, idx0, binds0;
          }
          ok, sql, idx, binds := ProcessList(sigil, params[j].items, sql0, idx0, binds0);
        } else {
          ok, sql, idx, binds := Process(sigil, params[j], sql0, idx0, binds0);
        }
        return;
      }
    }
    return false, sql0, idx0, binds0;
  }

  /** What the loop has done when it stands at the cursor: the pieces cut off so far are rendered
      into the query, and cutting goes on from the cursor. */
  ghost predicate Reached(q: string, params: seq<Field>, c: Cursor, done: seq<Piece>, sql: string, idx: nat, binds: seq<Field>)
  {
    && Good(q, c) && Scan(q, START) == After(done, Scan(q, c))
    && Wrote("", 0, [], Render(done, params, 0), sql, idx, binds)
  }

  lemma ReachedStart(q: string, params: seq<Field>)
    ensures Reached(q, params, START, [], "", 0, [])
  {
    var l := Scan(q, START);
    assert l.Lexed? ==> [] + l.pieces == l.pieces;
  }

  lemma ReachedStep(q: string, params: seq<Field>, c: Cursor, done: seq<Piece>, sql: string, idx: nat, binds: seq<Field>,
                    sql': string, idx': nat, binds': seq<Field>)
    requires Reached(q, params, c, done, sql, idx, binds) && c.i < |q| && Step(q, c).Stepped?
    requires Wrote(sql, idx, binds, Render(Step(q, c).pieces, params, idx), sql', idx', binds')
    ensures Reached(q, params, Step(q, c).next, done + Step(q, c).pieces, sql', idx', binds')
  {
    hide Step, Wrote;
    StepGood(q, c);
    var r := Step(q, c);
    var l := Scan(q, r.next);
    if l.Lexed? {
      Assoc(done, r.pieces, l.pieces);
    }
    WroteCount("", 0, [], Render(done, params, 0), sql, idx, binds);
    RenderMore(done, r.pieces, params, 0);
    WroteThen("", 0, [], Render(done, params, 0), sql, idx, binds, Render(r.pieces, params, idx), sql', idx', binds');
  }

  /** A step whose pieces cannot be rendered, or that breaks off, fails the whole. */
  lemma ReachedFailure(q: string, params: seq<Field>, c: Cursor, done: seq<Piece>, sql: string, idx: nat, binds: seq<Field>)
    requires Reached(q, params, c, done, sql, idx, binds) && c.i < |q|
    requires Step(q, c).Broken? || Render(Step(q, c).pieces, params, idx).NotRendered?
    ensures Scan(q, START).Failed? || Render(Scan(q, START).pieces, params, 0).NotRendered?
  {
    hide Step, Wrote, RenderPiece, Good;
    StepGood(q, c);
    var r := Step(q, c);
    if r.Stepped? && Scan(q, r.next).Lexed? {
      var l := Scan(q, r.next);
      WroteCount("", 0, [], Render(done, params, 0), sql, idx, binds);
      RenderMore(r.pieces, l.pieces, params, idx);
      RenderMore(done, r.pieces + l.pieces, params, 0);
    }
  }

  lemma ReachedEnd(q: string, params: seq<Field>, c: Cursor, done: seq<Piece>, sql: string, idx: nat, binds: seq<Field>)
    requires Reached(q, params, c, done, sql, idx, binds) && c.i >= |q|
    ensures Scan(q, START) == Lexed(done, c.copied)
    ensures Render(done, params, 0).Rendered? && sql == Flat(Render(done, params, 0).outs) && binds == Render(done, params, 0).binds
  {
    assert done + [] == done;
  }

  lemma RenderOne(p: Piece, params: seq<Field>, n: nat)
    ensures Render([p], params, n) == RenderPiece(p, params, n)
  {
    hide RenderPiece;
    assert [p][1..] == [];
    JoinEmpty(RenderPiece(p, params, n));
  }

  /** The end of a pending parameter and of the template, on the growing query. */
  method EndParam(q: string, params: seq<Field>, c: Cursor, sql0: string, idx0: nat, binds0: seq<Field>)
    returns (ok: bool, c': Cursor, sql: string, idx: nat, binds: seq<Field>)
    requires Good(q, c) && c.i < |q|
    ensures ok == Render(EndStep(q, c).pieces, params, idx0).Rendered?
    ensures ok ==> c' == EndStep(q, c).next
    ensures ok ==> Wrote(sql0, idx0, binds0, Render(EndStep(q, c).pieces, params, idx0), sql, idx, binds)
  {
    hide Wrote, RenderParam, Render, IsSpecial, Join;
    ok, c', sql, idx, binds := true, c.(i := c.i + 1), sql0, idx0, binds0;
    ghost var r := Rendered([], []);
    ghost var pieces := [];
    WroteNothing(sql0, idx0, binds0);
    RenderNone(params, idx0);
    var last := c.i == |q| - 1;
    var special := IsSpecial(q[c.i]);
    if c.start != -1 && (special || last) {
      var end := if last && !special then c.i + 1 else c.i;
      var size := end - c.start - 1;
      if 0 < size < MAX_PARAM_NAME {
        var text, name := q[c.copied..c.start], q[c.start + 1..end];
        sql := sql + text;
        WroteText(sql0, idx0, binds0, text);
        ghost var sql1 := sql;
        ok, sql, idx, binds := ProcessParam(q[c.start], name, params, sql, idx, binds);
        RenderLitPar(text, q[c.start], name, params, idx0);
        pieces := [Lit(text), Par(q[c.start], name)];
        if !ok {
          RenderMore(pieces, [Lit(q[end..])], params, idx0);
          return;
        }
        r := RenderParam(q[c.start], name, params, idx0);
        WroteThen(sql0, idx0, binds0, Rendered([Text(text)], []), sql1, idx0, binds0, r, sql, idx, binds);
        c' := c'.(copied := end);
      }
      c' := c'.(start := -1);
    }
    if c'.start == -1 && last {
      ghost var sql1 := sql;
      var text := q[c'.copied..];
      sql := sql + text;
      WroteText(sql1, idx, binds, text);
      RenderOne(Lit(text), params, idx);
      WroteCount(sql0, idx0, binds0, Render(pieces, params, idx0), sql1, idx, binds);
      RenderMore(pieces, [Lit(text)], params, idx0);
      WroteThen(sql0, idx0, binds0, Render(pieces, params, idx0), sql1, idx, binds, Rendered([Text(text)], []), sql, idx, binds);
      c' := c'.(copied := |q|);
    }
    WroteCount(sql0, idx0, binds0, Render(EndStep(q, c).pieces, params, idx0), sql, idx, binds);
  }

  lemma RenderNone(params: seq<Field>, n: nat)
    ensures Render([], params, n) == Rendered([], [])
  {
  }

  lemma RenderLitPar(text: string, sigil: char, name: string, params: seq<Field>, n: nat)
    ensures Render([Lit(text), Par(sigil, name)], params, n) == Join(Rendered([Text(text)], []), RenderParam(sigil, name, params, n))
    ensures RenderParam(sigil, name, params, n).NotRendered? ==> Render([Lit(text), Par(sigil, name)], params, n).NotRendered?
  {
    RenderMore([Lit(text)], [Par(sigil, name)], params, n);
    RenderOne(Lit(text), params, n);
    RenderOne(Par(sigil, name), params, n);
    assert [Lit(text), Par(sigil, name)] == [Lit(text)] + [Par(sigil, name)];
  }

  /** parse_sql_parameters with __build_query_processor. */
  method Translate(q: string, params: seq<Field>) returns (ok: bool, sql: string, binds: seq<Field>)
    ensures ok == (Scan(q, START).Lexed? && Render(Scan(q, START).pieces, params, 0).Rendered?)
    ensures ok ==> sql == Flat(Render(Scan(q, START).pieces, params, 0).outs)
    ensures ok ==> binds == Render(Scan(q, START).pieces, params, 0).binds
  {
    hide Wrote, Reached, Render, EndStep, Advance;
    var idx, c := 0, START;
    sql, binds := "", [];
    ghost var done := [];
    ReachedStart(q, params);
    while c.i < |q|
      invariant Good(q, c) && Reached(q, params, c, done, sql, idx, binds)
      decreases |q| - c.i
    {
      StepGood(q, c);
      WroteNothing(sql, idx, binds);
      RenderNone(params, idx);
      ghost var c0, sql0, idx0, binds0 := c, sql, idx, binds;
      var u := Advance(q, c.i, c.lex);
      if u.skip || Inside(u.lex) {
        c := c.(i := u.i + 1, lex := u.lex);
      } else {
        c := c.(lex := u.lex);
        var endCheck := false;
        if q[c.i] == ':' && c.i + 1 < |q| && q[c.i + 1] == ':' {
          if c.start != -1 {
            c := c.(skip := true);
            endCheck := true;
          } else {
            c := c.(i := c.i + 2);
          }
        } else if c.skip && q[c.i] == ':' {
          c := c.(i := c.i + 1, skip := false);
        } else {
          c := c.(skip := false);
          if q[c.i] == ':' || q[c.i] == '@' {
            if c.start != -1 {
              ReachedFailure(q, params, c0, done, sql0, idx0, binds0);
              return false, sql, binds;
            }
            c := c.(i := c.i + 1, start := c.i);
          } else {
            endCheck := true;
          }
        }
        if endCheck {
          ok, c, sql, idx, binds := EndParam(q, params, c, sql, idx, binds);
          if !ok {
            ReachedFailure(q, params, c0, done, sql0, idx0, binds0);
            return;
          }
        }
      }
      ReachedStep(q, params, c0, done, sql0, idx0, binds0, sql, idx, binds);
      done := done + Step(q, c0).pieces;
    }
    ReachedEnd(q, params, c, done, sql, idx, binds);
    ok := true;
  }
}
