/** From a template to the query the MySQL driver sends: when the quotes seen by the template
    translator and by the driver agree, there is one question mark per bound value. */
module MysqlTemplate {
  import opened Common
  import opened Decimals
  import opened Sequences
  import opened SqlTemplate
  import opened SqlTemplateLaws
  import opened Mysql

  /** Text that leaves the driver outside of quotes and holds no placeholder outside of quotes. */
  ghost predicate Even(s: string)
  {
    MarksQuoted(s, NO_QUOTE) && QuoteRun(s, NO_QUOTE) == NO_QUOTE
  }

  // ----- templates the two scanners read alike

  /** The character at i, read in the given lexer state, means the same to the driver: in a comment
      and outside of strings no quote or placeholder that only the driver sees, in a string no
      escaped quote. */
  ghost predicate TameAt(q: string, i: nat, lex: Lex)
    requires i < |q|
  {
    if lex.line || lex.block then !Opens(q[i]) && !DollarDigit(q, i)
    else if lex.inString then !(q[i] == lex.quote && i > 0 && q[i - 1] == '\\')
    else q[i] != '`' && !(IsQuote(q[i]) && i > 0 && q[i - 1] == '\\') && !DollarDigit(q, i)
  }

  /** So does every character from i on. */
  ghost predicate TameFrom(q: string, i: nat, lex: Lex)
    decreases |q| - i
  {
    i < |q| ==> TameAt(q, i, lex) && (var u := Advance(q, i, lex); TameFrom(q, u.i + 1, u.lex))
  }

  ghost predicate Tame(q: string)
  {
    TameFrom(q, 0, PLAIN)
  }

  ghost predicate TameLex(lex: Lex)
  {
    lex.inString ==> IsQuote(lex.quote) && !lex.line && !lex.block
  }

  ghost function QuoteOf(lex: Lex): char
  {
    if lex.inString then lex.quote else NO_QUOTE
  }

  /** One move of the translator's lexer is matched by the driver's quote. */
  lemma AdvanceAlike(q: string, i: nat, lex: Lex)
    requires i < |q| && TameFrom(q, i, lex) && TameLex(lex)
    ensures var u := Advance(q, i, lex);
            && TameLex(u.lex) && TameFrom(q, u.i + 1, u.lex)
            && QuoteRun(q[i..u.i + 1], QuoteOf(lex)) == QuoteOf(u.lex)
            && (u.lex.inString && !lex.inString ==> IsQuote(q[i]))
            && forall k :: i <= k <= u.i && DollarDigit(q, k) ==> k == i && lex.inString
  {
    hide TameFrom;
    var u := Advance(q, i, lex);
    assert TameAt(q, i, lex) && TameFrom(q, u.i + 1, u.lex) by {
      TameStep(q, i, lex);
    }
    QuoteOne(q, i, QuoteOf(lex));
    if u.i == i + 1 {
      assert q[i + 1] == '-' || q[i + 1] == '*' || (lex.inString && q[i] == q[i + 1] == lex.quote);
      QuoteOne(q, i + 1, QuoteStep(QuoteOf(lex), q[i]));
      QuoteSlices(q, i, i + 1, i + 2, QuoteOf(lex));
    }
  }

  lemma TameStep(q: string, i: nat, lex: Lex)
    requires i < |q| && TameFrom(q, i, lex)
    ensures TameAt(q, i, lex) && (var u := Advance(q, i, lex); TameFrom(q, u.i + 1, u.lex))
  {
    hide Advance;
  }

  lemma QuoteOne(q: string, i: nat, quote: char)
    requires i < |q|
    ensures QuoteRun(q[i..i + 1], quote) == QuoteStep(quote, q[i])
  {
    assert q[i..i + 1][1..] == "";
  }

  lemma QuoteSlices(q: string, a: nat, b: nat, c: nat, quote: char)
    requires a <= b <= c <= |q|
    ensures QuoteRun(q[a..c], quote) == QuoteRun(q[b..c], QuoteRun(q[a..b], quote))
  {
    Slices(q, a, b, c);
    QuoteRunMore(q[a..b], q[b..c], quote);
  }

  ghost predicate NoQuotes(s: string)
  {
    forall i :: 0 <= i < |s| ==> !IsQuote(s[i])
  }

  /** Every dollar sign before a digit, from a to b, is in a quote of the driver. */
  ghost predicate Hidden(q: string, a: nat, b: nat)
    requires a <= b <= |q|
  {
    forall k :: a <= k < b && DollarDigit(q, k) ==> QuoteRun(q[a..k], NO_QUOTE) != NO_QUOTE
  }

  /** The driver, starting outside of quotes at the last copy point, is in the quote the translator is in. */
  ghost predicate Alike(q: string, c: Cursor)
  {
    && Good(q, c) && TameLex(c.lex) && TameFrom(q, c.i, c.lex)
    && QuoteRun(q[c.copied..c.i], NO_QUOTE) == QuoteOf(c.lex) && Hidden(q, c.copied, c.i)
    && (c.start >= 0 ==> QuoteRun(q[c.copied..c.start], NO_QUOTE) == NO_QUOTE && (NoQuotes(q[c.start + 1..c.i]) ==> !c.lex.inString))
    && (c.copied > 0 ==> c.copied == |q| || !IsDigit(q[c.copied]))
    && (c.copied > 0 ==> c.copied == |q| || c.copied < if c.start >= 0 then c.start else c.i)
  }

  /** Whether a digit may come next: not after a dollar sign, and not right after a placeholder. */
  ghost function Opened(s: string, open: bool): bool
  {
    if s == "" then open else s[|s| - 1] != '$'
  }

  /** The literal pieces are even and a digit starts one only where it may; so for a parameter,
      unless fragments start with no digit (strict). */
  ghost predicate EvenPieces(pieces: seq<Piece>, open: bool, strict: bool)
  {
    pieces != [] ==>
      match pieces[0]
      case Lit(t) => Even(t) && (open || NoDigitFirst(t)) && EvenPieces(pieces[1..], Opened(t, open), strict)
      case Par(_, _) => (open || strict) && EvenPieces(pieces[1..], false, strict)
  }

  ghost predicate PlainNames(pieces: seq<Piece>)
  {
    forall i :: 0 <= i < |pieces| && pieces[i].Par? ==> NoQuotes(pieces[i].name)
  }

  /** No dollar sign directly before a reference. */
  ghost predicate NoDollarRef(q: string)
  {
    forall i :: 0 < i < |q| && q[i - 1] == '$' ==> q[i] != ':' && q[i] != '@'
  }

  lemma HiddenSlice(q: string, a: nat, b: nat, i: nat)
    requires a <= b <= i <= |q| && Hidden(q, a, i)
    ensures MarksQuoted(q[a..b], NO_QUOTE)
  {
    var s := q[a..b];
    forall k | DollarDigit(s, k)
      ensures QuoteRun(s[..k], NO_QUOTE) != NO_QUOTE
    {
      assert s[..k] == q[a..a + k] && DollarDigit(q, a + k);
    }
  }

  lemma HiddenMore(q: string, a: nat, i: nat, j: nat, quote: char)
    requires a <= i <= j <= |q| && Hidden(q, a, i) && QuoteRun(q[a..i], NO_QUOTE) == quote
    requires forall k :: i <= k < j && DollarDigit(q, k) ==> k == i && quote != NO_QUOTE
    ensures Hidden(q, a, j)
  {
    hide QuoteRun, DollarDigit;
  }

  /** The translator moved on by reading on; nothing was cut off. */
  lemma MovedAlike(q: string, c: Cursor, c': Cursor)
    requires Alike(q, c) && c.i < |q|
    requires var u := Advance(q, c.i, c.lex);
             c'.lex == u.lex && c'.i == u.i + 1 && c'.copied == c.copied && (c'.start == c.start || c'.start == -1)
    ensures Alike(q, c')
  {
    hide Advance, QuoteRun, TameFrom, NoQuotes, IsQuote, DollarDigit, Hidden;
    AdvanceAlike(q, c.i, c.lex);
    QuoteSlices(q, c.copied, c.i, c'.i, NO_QUOTE);
    if c.lex.inString {
      QuoteNot(c.lex);
    }
    HiddenMore(q, c.copied, c.i, c'.i, QuoteOf(c.lex));
    if c'.start >= 0 && NoQuotes(q[c'.start + 1..c'.i]) {
      NameBefore(q, c'.start, c.i, c'.i);
      NoQuoteAt(q, c'.start + 1, c.i, c'.i);
    }
  }

  lemma QuoteNot(lex: Lex)
    requires TameLex(lex) && lex.inString
    ensures QuoteOf(lex) != NO_QUOTE
  {
  }

  lemma NameBefore(q: string, start: nat, i: nat, end: nat)
    requires start < i <= end <= |q| && NoQuotes(q[start + 1..end])
    ensures NoQuotes(q[start + 1..i])
  {
    assert q[start + 1..i] == q[start + 1..end][..i - start - 1];
  }

  lemma NoQuoteAt(q: string, a: nat, i: nat, b: nat)
    requires a <= i < b <= |q| && NoQuotes(q[a..b])
    ensures !IsQuote(q[i])
  {
    assert q[i] == q[a..b][i - a];
  }

  /** A parameter starts outside of quotes. */
  lemma StartAlike(q: string, c: Cursor)
    requires Alike(q, c) && c.i < |q| && c.start == -1 && (q[c.i] == ':' || q[c.i] == '@')
    requires var u := Advance(q, c.i, c.lex); !u.skip && !Inside(u.lex)
    ensures var u := Advance(q, c.i, c.lex);
            Alike(q, Cursor(c.i + 1, c.i, c.copied, u.lex, false))
  {
    var u := Advance(q, c.i, c.lex);
    assert u == Moved(c.lex, c.i, false);
    hide Advance, TameFrom, Hidden, QuoteRun;
    MovedAlike(q, c, c.(lex := u.lex, i := u.i + 1));
  }

  /** After a parameter the copying goes on outside of quotes, at no digit. */
  lemma NamedAlike(q: string, c: Cursor, end: nat)
    requires Alike(q, c) && c.i < |q| && c.start >= 0 && NoQuotes(q[c.start + 1..c.i])
    requires var u := Advance(q, c.i, c.lex); !u.skip && !Inside(u.lex)
    requires if IsSpecial(q[c.i]) then end == c.i else end == c.i + 1 == |q|
    ensures var u := Advance(q, c.i, c.lex); Alike(q, Cursor(c.i + 1, -1, end, u.lex, c.skip))
  {
    var u := Advance(q, c.i, c.lex);
    AdvanceAlike(q, c.i, c.lex);
    hide Advance, TameFrom;
    assert q[c.i..c.i] == "";
    if end > c.i {
      assert q[end..c.i + 1] == "";
    }
  }

  lemma LitEven(q: string, a: nat, b: nat, i: nat, strict: bool)
    requires a <= b <= i <= |q| && Hidden(q, a, i) && QuoteRun(q[a..b], NO_QUOTE) == NO_QUOTE
    requires a > 0 ==> a == |q| || !IsDigit(q[a])
    ensures EvenPieces([Lit(q[a..b])], a == 0, strict)
  {
    hide Hidden, MarksQuoted, QuoteRun;
    HiddenSlice(q, a, b, i);
    assert [Lit(q[a..b])][1..] == [];
  }

  lemma {:induction false} EvenPiecesMore(a: seq<Piece>, b: seq<Piece>, open: bool, strict: bool)
    requires EvenPieces(a, open, strict) && EvenPieces(b, false, strict)
    ensures EvenPieces(a + b, open, strict)
    decreases a
  {
    hide Even, NoDigitFirst;
    if a == [] {
      assert a + b == b;
      EvenPiecesWeaker(b, open, strict);
    } else {
      assert (a + b)[1..] == a[1..] + b;
      EvenPiecesMore(a[1..], b, if a[0].Lit? then Opened(a[0].text, open) else false, strict);
    }
  }

  lemma {:induction false} EvenPiecesWeaker(a: seq<Piece>, open: bool, strict: bool)
    requires EvenPieces(a, false, strict)
    ensures EvenPieces(a, open, strict)
    decreases a
  {
    hide Even, NoDigitFirst;
    if a != [] && a[0].Lit? && a[0].text == "" {
      EvenPiecesWeaker(a[1..], open, strict);
    }
  }

  lemma AlikeGood(q: string, c: Cursor, lex: Lex, skip: bool)
    requires Alike(q, c)
    ensures Good(q, c.(lex := lex, skip := skip)) && Alike(q, c.(skip := skip))
  {
    hide TameFrom, Hidden, QuoteRun;
  }

  /** What a step of the scan leaves behind. */
  ghost predicate StepFits(q: string, c: Cursor, r: Stepped, strict: bool)
  {
    && r.Stepped? && Alike(q, r.next) && EvenPieces(r.pieces, c.copied == 0, strict)
    && (if r.pieces == [] then r.next.copied == c.copied else r.next.copied > 0)
  }

  ghost predicate Ready(q: string, strict: bool)
  {
    strict || NoDollarRef(q)
  }

  lemma EndAlike(q: string, c: Cursor, skip: bool, strict: bool)
    requires Alike(q, c) && c.i < |q| && Ready(q, strict)
    requires var u := Advance(q, c.i, c.lex); !u.skip && !Inside(u.lex)
    requires var u := Advance(q, c.i, c.lex); PlainNames(EndStep(q, c.(lex := u.lex, skip := skip)).pieces)
    ensures StepFits(q, c, EndStep(q, c.(lex := Advance(q, c.i, c.lex).lex, skip := skip)), strict)
  {
    hide Advance, TameFrom, Hidden, QuoteRun, IsSpecial, EvenPieces, Alike, EndStep, Ready, PlainNames;
    var u := Advance(q, c.i, c.lex);
    AlikeGood(q, c, u.lex, skip);
    var c1 := c.(lex := u.lex, skip := skip);
    var last, special := c.i == |q| - 1, IsSpecial(q[c.i]);
    var end := if last && !special then c.i + 1 else c.i;
    if c.start >= 0 && (special || last) && 0 < end - c.start - 1 < MAX_PARAM_NAME {
      NamedEnd(q, c, skip, end, strict);
    } else {
      UnnamedStep(q, c1);
      var c2 := Cursor(c.i + 1, if c.start >= 0 && (special || last) then -1 else c.start, c.copied, u.lex, skip);
      MovedAlike(q, c, c2);
      if last {
        WholeAlike(q, c2, strict);
        DropAll(q, c.copied);
      } else {
        EvenNone(c.copied == 0, strict);
      }
    }
  }

  lemma EvenNone(open: bool, strict: bool)
    ensures EvenPieces([], open, strict)
  {
  }

  /** At the end of the template the rest is literal, and outside of quotes. */
  lemma WholeAlike(q: string, c: Cursor, strict: bool)
    requires Alike(q, c) && c.i == |q| && c.start == -1 && !Inside(c.lex)
    ensures Alike(q, c.(copied := |q|)) && EvenPieces([Lit(q[c.copied..|q|])], c.copied == 0, strict)
  {
    hide EvenPieces;
    LitEven(q, c.copied, |q|, |q|, strict);
    assert q[|q|..|q|] == "";
  }

  lemma NamedStep(q: string, c: Cursor, end: nat)
    requires Good(q, c) && c.i < |q| && c.start >= 0
    requires var last, special := c.i == |q| - 1, IsSpecial(q[c.i]);
             (special || last) && end == (if last && !special then c.i + 1 else c.i) && 0 < end - c.start - 1 < MAX_PARAM_NAME
    ensures var found := [Lit(q[c.copied..c.start]), Par(q[c.start], q[c.start + 1..end])];
            EndStep(q, c) == if c.i == |q| - 1
              then Stepped(Cursor(c.i + 1, -1, |q|, c.lex, c.skip), found + [Lit(q[end..])])
              else Stepped(Cursor(c.i + 1, -1, end, c.lex, c.skip), found)
  {
    hide IsSpecial;
  }

  lemma UnnamedStep(q: string, c: Cursor)
    requires Good(q, c) && c.i < |q|
    requires var last, special := c.i == |q| - 1, IsSpecial(q[c.i]);
             var end := if last && !special then c.i + 1 else c.i;
             !(c.start >= 0 && (special || last) && 0 < end - c.start - 1 < MAX_PARAM_NAME)
    ensures var start := if c.start >= 0 && (IsSpecial(q[c.i]) || c.i == |q| - 1) then -1 else c.start;
            EndStep(q, c) == if c.i == |q| - 1
              then Stepped(Cursor(c.i + 1, -1, |q|, c.lex, c.skip), [Lit(q[c.copied..])])
              else Stepped(Cursor(c.i + 1, start, c.copied, c.lex, c.skip), [])
  {
    var special := IsSpecial(q[c.i]);
    hide IsSpecial;
    var r := EndStep(q, c);
    if c.i == |q| - 1 {
      var lit := Lit(q[c.copied..]);
      assert r.pieces == [] + [lit] == [lit];
    } else {
      assert r.pieces == [];
    }
  }

  lemma NamedEnd(q: string, c: Cursor, skip: bool, end: nat, strict: bool)
    requires Alike(q, c) && c.i < |q| && c.start >= 0 && Ready(q, strict)
    requires var u := Advance(q, c.i, c.lex); !u.skip && !Inside(u.lex)
    requires var u := Advance(q, c.i, c.lex); PlainNames(EndStep(q, c.(lex := u.lex, skip := skip)).pieces)
    requires var last, special := c.i == |q| - 1, IsSpecial(q[c.i]);
             (special || last) && end == (if last && !special then c.i + 1 else c.i) && 0 < end - c.start - 1 < MAX_PARAM_NAME
    ensures StepFits(q, c, EndStep(q, c.(lex := Advance(q, c.i, c.lex).lex, skip := skip)), strict)
  {
    hide Advance, TameFrom, Hidden, QuoteRun, EvenPieces, Alike, NoQuotes, EndStep, Ready;
    var u := Advance(q, c.i, c.lex);
    StartEven(q, c, end, strict);
    AlikeGood(q, c, u.lex, skip);
    NamedStep(q, c.(lex := u.lex, skip := skip), end);
    hide IsSpecial;
    var r := EndStep(q, c.(lex := u.lex, skip := skip));
    var lit, par := Lit(q[c.copied..c.start]), Par(q[c.start], q[c.start + 1..end]);
    assert r.pieces[1] == par;
    NameBefore(q, c.start, c.i, end);
    NamedAlike(q, c.(skip := skip), end);
    if c.i == |q| - 1 {
      WholeAlike(q, Cursor(c.i + 1, -1, end, u.lex, skip), strict);
      DropAll(q, end);
      EvenPiecesMore([lit, par], [Lit(q[end..])], c.copied == 0, strict);
    }
  }

  lemma DropAll(q: string, i: nat)
    requires i <= |q|
    ensures q[i..] == q[i..|q|]
  {
  }

  lemma StartEven(q: string, c: Cursor, end: nat, strict: bool)
    requires Alike(q, c) && 0 <= c.start < end <= |q| && Ready(q, strict)
    ensures EvenPieces([Lit(q[c.copied..c.start]), Par(q[c.start], q[c.start + 1..end])], c.copied == 0, strict)
  {
    hide TameFrom, Hidden, QuoteRun, MarksQuoted;
    var lit, par := Lit(q[c.copied..c.start]), Par(q[c.start], q[c.start + 1..end]);
    LitEven(q, c.copied, c.start, c.i, strict);
    assert [lit][1..] == [] && [par][1..] == [] && [lit, par][1..] == [par];
    if !strict {
      OpenBefore(q, c);
    }
    assert EvenPieces([], false, strict);
    assert EvenPieces([par], Opened(lit.text, c.copied == 0), strict);
  }

  lemma OpenBefore(q: string, c: Cursor)
    requires Alike(q, c) && c.start >= 0 && NoDollarRef(q)
    ensures Opened(q[c.copied..c.start], c.copied == 0)
  {
    hide TameFrom, Hidden, QuoteRun;
    var lit := q[c.copied..c.start];
    if lit != "" {
      assert lit[|lit| - 1] == q[c.start - 1];
    }
  }

  /** Both colons of a cast are read over. */
  lemma CastAlike(q: string, c: Cursor)
    requires Alike(q, c) && c.i + 1 < |q| && q[c.i] == ':' && q[c.i + 1] == ':'
    requires var u := Advance(q, c.i, c.lex); !u.skip && !Inside(u.lex)
    ensures Alike(q, c.(lex := Advance(q, c.i, c.lex).lex, i := c.i + 2))
  {
    var u := Advance(q, c.i, c.lex);
    var c1 := c.(lex := u.lex, i := c.i + 1);
    ColonAdvance(q, c1.i, c1.lex);
    hide Advance, Alike;
    MovedAlike(q, c, c1);
    MovedAlike(q, c1, c1.(i := c.i + 2));
  }

  lemma StepAlike(q: string, c: Cursor, strict: bool)
    requires Alike(q, c) && c.i < |q| && Ready(q, strict) && Step(q, c).Stepped? && PlainNames(Step(q, c).pieces)
    ensures StepFits(q, c, Step(q, c), strict)
  {
    hide EvenPieces, TameFrom, EndStep, PlainNames, Alike, IsQuote, QuoteRun, Hidden, Ready, Advance;
    AlikeGood(q, c, c.lex, c.skip);
    var u := Advance(q, c.i, c.lex);
    EvenNone(c.copied == 0, strict);
    var r := Step(q, c);
    if u.skip || Inside(u.lex) {
      MovedAlike(q, c, r.next);
    } else if q[c.i] == ':' && c.i + 1 < |q| && q[c.i + 1] == ':' {
      if c.start == -1 {
        CastAlike(q, c);
      } else {
        EndAlike(q, c, true, strict);
      }
    } else if c.skip && q[c.i] == ':' {
      StayedAt(q, c);
      MovedAlike(q, c, r.next);
    } else if q[c.i] == ':' || q[c.i] == '@' {
      StartAlike(q, c);
    } else {
      EndAlike(q, c, false, strict);
    }
  }

  lemma StayedAt(q: string, c: Cursor)
    requires c.i < |q| && !Advance(q, c.i, c.lex).skip && !Inside(Advance(q, c.i, c.lex).lex)
    ensures Advance(q, c.i, c.lex).i == c.i
  {
    hide IsQuote;
  }

  lemma PlainNamesParts(a: seq<Piece>, b: seq<Piece>)
    requires PlainNames(a + b)
    ensures PlainNames(a) && PlainNames(b)
  {
    assert forall i :: 0 <= i < |a| ==> a[i] == (a + b)[i];
    assert forall i :: 0 <= i < |b| ==> b[i] == (a + b)[|a| + i];
  }

  /** The literal pieces of a template both scanners read alike are even. */
  lemma {:induction false} ScanEven(q: string, c: Cursor, strict: bool)
    requires Alike(q, c) && Ready(q, strict) && Scan(q, c).Lexed? && PlainNames(Scan(q, c).pieces)
    ensures EvenPieces(Scan(q, c).pieces, c.copied == 0, strict)
    decreases |q| - c.i
  {
    hide TameFrom, EvenPieces, PlainNames, Step, Hidden, QuoteRun, Ready;
    if c.i >= |q| {
      EvenNone(c.copied == 0, strict);
    } else {
      StepGood(q, c);
      var r := Step(q, c);
      PlainNamesParts(r.pieces, Scan(q, r.next).pieces);
      StepAlike(q, c, strict);
      ScanEven(q, r.next, strict);
      if r.pieces == [] {
        assert r.pieces + Scan(q, r.next).pieces == Scan(q, r.next).pieces;
      } else {
        EvenPiecesMore(r.pieces, Scan(q, r.next).pieces, c.copied == 0, strict);
      }
    }
  }

  // ----- the query

  /** Even, and with no digit first where that is asked for. */
  ghost predicate MildText(s: string, strict: bool)
  {
    Even(s) && (strict ==> NoDigitFirst(s))
  }

  /** Inlined fragments and casts are even, a cast starts with no digit, and the name has no quote. */
  ghost predicate Mild(f: Field, strict: bool)
  {
    && (f.raw && f.text.Some? ==> MildText(f.text.value, strict)) && (f.ident.Some? ==> MildText(f.ident.value, strict))
    && MildText(f.suffix, true) && NoQuotes(f.name)
    && (forall i :: 0 <= i < |f.items| && f.items[i].Some? ==> Mild(f.items[i].value, strict))
  }

  /** Pieces of the query that are even, with a digit first only where it may come. */
  ghost predicate Smooth(outs: seq<Out>, open: bool)
  {
    outs != [] ==>
      match outs[0]
      case Text(s) => MildText(s, !open) && Smooth(outs[1..], Opened(s, open))
      case Hole(_, suffix) => MildText(suffix, true) && Smooth(outs[1..], Opened(suffix, false))
  }

  ghost function OpenedAll(outs: seq<Out>, open: bool): bool
  {
    if outs == [] then open
    else OpenedAll(outs[1..], if outs[0].Text? then Opened(outs[0].s, open) else Opened(outs[0].suffix, false))
  }

  lemma {:induction false} SmoothMore(a: seq<Out>, b: seq<Out>, open: bool)
    requires Smooth(a, open) && Smooth(b, OpenedAll(a, open))
    ensures Smooth(a + b, open)
    decreases a
  {
    hide MildText;
    if a == [] {
      assert a + b == b;
    } else {
      assert (a + b)[1..] == a[1..] + b;
      SmoothMore(a[1..], b, if a[0].Text? then Opened(a[0].s, open) else Opened(a[0].suffix, false));
    }
  }

  lemma {:induction false} SmoothWeaker(a: seq<Out>, open: bool)
    requires Smooth(a, false)
    ensures Smooth(a, open)
    decreases a
  {
    hide Even;
    if a != [] && a[0].Text? && a[0].s == "" {
      SmoothWeaker(a[1..], open);
    }
  }

  lemma {:induction false} SmoothFirst(outs: seq<Out>)
    requires Smooth(outs, false)
    ensures NoDigitFirst(Flat(outs))
    decreases outs
  {
    if outs != [] {
      FirstOut(outs);
      if outs[0].Text? && outs[0].s == "" {
        SmoothFirst(outs[1..]);
        assert Flat(outs) == Flat(outs[1..]);
      }
    }
  }

  lemma JoinEven(a: string, b: string)
    requires Even(a) && Even(b) && (Opened(a, true) || NoDigitFirst(b))
    ensures Even(a + b)
  {
    var s := a + b;
    QuoteRunMore(a, b, NO_QUOTE);
    forall i | DollarDigit(s, i)
      ensures QuoteRun(s[..i], NO_QUOTE) != NO_QUOTE
    {
      if i < |a| {
        assert s[..i] == a[..i];
        assert DollarDigit(a, i);
      } else {
        assert s[..i] == a + b[..i - |a|];
        QuoteRunMore(a, b[..i - |a|], NO_QUOTE);
        assert DollarDigit(b, i - |a|);
      }
    }
  }

  lemma {:induction false} SmoothCalm(outs: seq<Out>, acc: string, open: bool)
    requires Smooth(outs, open) && Even(acc) && (open ==> Opened(acc, true))
    ensures Calm(outs, acc, NO_QUOTE)
    decreases outs
  {
    hide MarksQuoted, QuoteRun, NoDigitFirst, Flat;
    if outs != [] {
      match outs[0]
      case Text(s) =>
        JoinEven(acc, s);
        OpenedMore(acc, s);
        SmoothCalm(outs[1..], acc + s, Opened(s, open));
      case Hole(k, suffix) =>
        if suffix == "" {
          SmoothFirst(outs[1..]);
        }
        FirstOfTwo(suffix, Flat(outs[1..]));
        SmoothCalm(outs[1..], suffix, Opened(suffix, false));
    }
  }

  lemma OpenedMore(a: string, b: string)
    ensures Opened(a + b, true) == Opened(b, Opened(a, true))
  {
  }

  lemma FirstOfTwo(a: string, b: string)
    ensures NoDigitFirst(a + b) <==> if a == "" then NoDigitFirst(b) else NoDigitFirst(a)
  {
    assert a == "" ==> a + b == b;
  }

  lemma MildSome()
    ensures MildText("NULL", true) && MildText(",", true)
  {
    assert QuoteRun("", NO_QUOTE) == NO_QUOTE;
    assert "NULL"[1..] == "ULL" && "ULL"[1..] == "LL" && "LL"[1..] == "L" && "L"[1..] == "" && ","[1..] == "";
    assert QuoteRun("L", NO_QUOTE) == NO_QUOTE;
    assert QuoteRun("LL", NO_QUOTE) == NO_QUOTE;
    assert QuoteRun("ULL", NO_QUOTE) == NO_QUOTE;
    assert MarksQuoted("NULL", NO_QUOTE) && MarksQuoted(",", NO_QUOTE);
  }

  lemma SmoothOne(o: Out, open: bool)
    requires match o case Text(s) => MildText(s, !open) case Hole(_, suffix) => MildText(suffix, true)
    ensures Smooth([o], open)
  {
    assert [o][1..] == [];
  }

  lemma FieldSmooth(sigil: char, f: Field, n: nat, open: bool, strict: bool)
    requires Mild(f, strict) && (open || strict)
    ensures var r := RenderField(sigil, f, n); r.Rendered? ==> Smooth(r.outs, open)
  {
    hide Smooth;
    MildSome();
    hide Even, NoDigitFirst;
    var r := RenderField(sigil, f, n);
    if r.Rendered? {
      SmoothOne(r.outs[0], open);
    }
  }

  lemma CommaSmooth(outs: seq<Out>, open: bool)
    requires Smooth(outs, true)
    ensures Smooth([Text(",")] + outs, open)
  {
    MildSome();
    hide Even;
    assert ([Text(",")] + outs)[1..] == outs;
  }

  lemma {:induction false} ItemsSmooth(sigil: char, items: seq<Option<Field>>, first: bool, n: nat, open: bool, strict: bool)
    requires forall i :: 0 <= i < |items| && items[i].Some? ==> Mild(items[i].value, strict)
    requires first ==> open || strict
    ensures var r := RenderItems(sigil, items, first, n); r.Rendered? ==> Smooth(r.outs, open)
    decreases items
  {
    hide Mild, RenderField, Smooth;
    if items == [] {
      SmoothNone(open);
    } else if items[0].Some? {
      var r := RenderField(sigil, items[0].value, n);
      if r.Rendered? {
        var outs := (if first then [] else [Text(",")]) + r.outs;
        if first {
          FieldSmooth(sigil, items[0].value, n, open, strict);
          assert outs == r.outs;
        } else {
          FieldSmooth(sigil, items[0].value, n, true, strict);
          CommaSmooth(r.outs, open);
        }
        ItemsSmooth(sigil, items[1..], false, n + |r.binds|, OpenedAll(outs, open), strict);
        var r1 := RenderItems(sigil, items[1..], false, n + |r.binds|);
        if r1.Rendered? {
          SmoothMore(outs, r1.outs, open);
        }
      }
    }
  }

  lemma SmoothNone(open: bool)
    ensures Smooth([], open)
  {
  }

  ghost predicate MildAll(params: seq<Field>, strict: bool)
  {
    forall i :: 0 <= i < |params| ==> Mild(params[i], strict)
  }

  lemma {:induction false} FindMild(params: seq<Field>, name: string, strict: bool)
    requires MildAll(params, strict) && Find(params, name).Some?
    ensures Mild(Find(params, name).value, strict) && Find(params, name).value.name == name
  {
    if params[0].name != name {
      FindMild(params[1..], name, strict);
    }
  }

  lemma ParamSmooth(sigil: char, name: string, params: seq<Field>, n: nat, open: bool, strict: bool)
    requires MildAll(params, strict) && (open || strict)
    ensures var r := RenderParam(sigil, name, params, n); r.Rendered? ==> Smooth(r.outs, open)
  {
    hide RenderField, RenderItems, Smooth;
    var key := if IsList(name) then name[|LIST|..] else name;
    if Find(params, key).Some? {
      FindMild(params, key, strict);
      FieldSmooth(sigil, Find(params, key).value, n, open, strict);
      ItemsSmooth(sigil, Find(params, key).value.items, true, n, open, strict);
    }
  }

  lemma ParamName(sigil: char, name: string, params: seq<Field>, n: nat, strict: bool)
    requires MildAll(params, strict) && RenderParam(sigil, name, params, n).Rendered?
    ensures NoQuotes(name)
  {
    hide RenderField, RenderItems;
    var key := if IsList(name) then name[|LIST|..] else name;
    FindMild(params, key, strict);
    if IsList(name) {
      assert name == LIST + key;
    }
  }

  /** Pieces with even literal text give a smooth query. */
  lemma {:induction false} RenderSmooth(pieces: seq<Piece>, params: seq<Field>, n: nat, open: bool, strict: bool)
    requires MildAll(params, strict) && EvenPieces(pieces, open, strict)
    ensures var r := Render(pieces, params, n); r.Rendered? ==> Smooth(r.outs, open)
    decreases pieces
  {
    hide RenderParam, MildAll, Even, NoDigitFirst, Smooth;
    if pieces == [] {
      SmoothNone(open);
    } else {
      var r := RenderPiece(pieces[0], params, n);
      if r.Rendered? {
        PieceSmooth(pieces, params, n, open, strict);
        var open' := OpenedAll(r.outs, open);
        RenderSmooth(pieces[1..], params, n + |r.binds|, open', strict);
        var r1 := Render(pieces[1..], params, n + |r.binds|);
        if r1.Rendered? {
          SmoothMore(r.outs, r1.outs, open);
        }
      }
    }
  }

  lemma PieceSmooth(pieces: seq<Piece>, params: seq<Field>, n: nat, open: bool, strict: bool)
    requires MildAll(params, strict) && EvenPieces(pieces, open, strict) && pieces != []
    requires RenderPiece(pieces[0], params, n).Rendered?
    ensures var r := RenderPiece(pieces[0], params, n);
            Smooth(r.outs, open) && EvenPieces(pieces[1..], OpenedAll(r.outs, open), strict)
  {
    hide RenderParam, MildAll, Even, NoDigitFirst, Smooth;
    var r := RenderPiece(pieces[0], params, n);
    match pieces[0]
    case Lit(t) =>
      SmoothOne(Text(t), open);
      assert [Text(t)][1..] == [];
    case Par(sigil, name) =>
      ParamSmooth(sigil, name, params, n, open, strict);
      EvenPiecesWeaker(pieces[1..], OpenedAll(r.outs, open), strict);
  }

  lemma {:induction false} NamesPlain(pieces: seq<Piece>, params: seq<Field>, n: nat, strict: bool)
    requires MildAll(params, strict) && Render(pieces, params, n).Rendered?
    ensures PlainNames(pieces)
    decreases pieces
  {
    hide RenderParam, MildAll, NoQuotes;
    if pieces != [] {
      if pieces[0].Par? {
        ParamName(pieces[0].sigil, pieces[0].name, params, n, strict);
      }
      NamesPlain(pieces[1..], params, n + |RenderPiece(pieces[0], params, n).binds|, strict);
      assert forall i :: 0 < i < |pieces| ==> pieces[i] == pieces[1..][i - 1];
    }
  }

  lemma AlikeStart(q: string)
    requires Tame(q)
    ensures Alike(q, START)
  {
    assert q[0..0] == "";
  }

  lemma EvenNothing()
    ensures Even("")
  {
  }

  /** For a template both scanners read alike and mild parameters, with no dollar sign before a
      reference or no digit before a fragment, the MySQL driver sends the translated query with one
      question mark per bound value, at the placeholders and nowhere else. */
  lemma OneMarkPerBind(q: string, params: seq<Field>, strict: bool)
    requires Tame(q) && MildAll(params, strict) && (strict || NoDollarRef(q))
    requires Scan(q, START).Lexed? && Render(Scan(q, START).pieces, params, 0).Rendered?
    ensures var r := Render(Scan(q, START).pieces, params, 0);
            Rewrite(Flat(r.outs), NO_QUOTE).out == Marked(r.outs) && Rewrite(Flat(r.outs), NO_QUOTE).count == |r.binds|
  {
    hide Render, Scan, Tame, MildAll, Alike, EvenPieces, PlainNames, Rewrite, Flat, Even, Marked, Calm, Smooth;
    var pieces := Scan(q, START).pieces;
    AlikeStart(q);
    NamesPlain(pieces, params, 0, strict);
    ScanEven(q, START, strict);
    RenderSmooth(pieces, params, 0, true, strict);
    PlaceholdersInOrder(pieces, params, 0);
    var r := Render(pieces, params, 0);
    UpFromLength(1, |r.binds|);
    EvenNothing();
    SmoothCalm(r.outs, "", true);
    MarksMatch(r.outs);
  }

  lemma {:induction false} UpFromLength(n: nat, count: nat)
    ensures |UpFrom(n, count)| == count
    decreases count
  {
    if count > 0 {
      UpFromLength(n + 1, count - 1);
    }
  }

  /** The two scanners do not read every template alike: a parameter between backticks is a
      parameter to the translator and its value is bound, but its placeholder is quoted text to the
      driver, which sends no question mark. */
  lemma BacktickMismatch(f: Field)
    requires f.name == "a" && !f.isNull && !f.raw && f.text.Some? && f.suffix == ""
    ensures Scan("`:a`", START) == Lexed([Lit("`"), Par(':', "a"), Lit("`")], 4)
    ensures Render(Scan("`:a`", START).pieces, [f], 0) == Rendered([Text("`"), Hole(1, ""), Text("`")], [f])
    ensures Rewrite(Flat([Text("`"), Hole(1, ""), Text("`")]), NO_QUOTE) == Rewritten("`$1`", 0, NO_QUOTE)
    ensures !Calm([Text("`"), Hole(1, ""), Text("`")], "", NO_QUOTE)
  {
    BacktickScan();
    BacktickRender(f);
    BacktickRewrite();
    var outs := [Text("`"), Hole(1, ""), Text("`")];
    hide Rewrite, Scan, Render, Calm, Flat, Marked;
    MarksMatch(outs);
    BacktickCount();
  }

  lemma BacktickCount()
    ensures |Numbers([Text("`"), Hole(1, ""), Text("`")])| == 1
  {
    assert [Text("`"), Hole(1, ""), Text("`")][1..] == [Hole(1, ""), Text("`")];
    assert [Hole(1, ""), Text("`")][1..] == [Text("`")];
    assert [Text("`")][1..] == [];
  }

  lemma BacktickScan()
    ensures Scan("`:a`", START) == Lexed([Lit("`"), Par(':', "a"), Lit("`")], 4)
  {
    var q := "`:a`";
    var c1, c2 := Cursor(1, -1, 0, PLAIN, false), Cursor(2, 1, 0, PLAIN, false);
    var c3, c4 := Cursor(3, 1, 0, PLAIN, false), Cursor(4, -1, 4, PLAIN, false);
    assert Step(q, START) == Stepped(c1, []);
    assert Step(q, c1) == Stepped(c2, []);
    assert Step(q, c2) == Stepped(c3, []);
    assert q[0..1] == "`" && q[2..3] == "a" && q[3..] == "`";
    assert Step(q, c3) == Stepped(c4, [Lit("`"), Par(':', "a"), Lit("`")]);
    assert Scan(q, c4) == Lexed([], 4);
    assert Scan(q, c3) == Lexed([Lit("`"), Par(':', "a"), Lit("`")], 4);
    assert Scan(q, c2) == Scan(q, c3);
    assert Scan(q, c1) == Scan(q, c3);
  }

  lemma BacktickRender(f: Field)
    requires f.name == "a" && !f.isNull && !f.raw && f.text.Some? && f.suffix == ""
    ensures Render([Lit("`"), Par(':', "a"), Lit("`")], [f], 0) == Rendered([Text("`"), Hole(1, ""), Text("`")], [f])
  {
    var p0, p1, p2 := Lit("`"), Par(':', "a"), Lit("`");
    assert [p0, p1, p2][1..] == [p1, p2] && [p1, p2][1..] == [p2] && [p2][1..] == [];
    assert RenderPiece(p1, [f], 0) == Rendered([Hole(1, "")], [f]);
    assert Render([p2], [f], 1) == Rendered([Text("`")], []);
    assert Render([p1, p2], [f], 0) == Rendered([Hole(1, ""), Text("`")], [f]);
  }

  lemma BacktickRewrite()
    ensures Rewrite(Flat([Text("`"), Hole(1, ""), Text("`")]), NO_QUOTE) == Rewritten("`$1`", 0, NO_QUOTE)
  {
    var outs := [Text("`"), Hole(1, ""), Text("`")];
    assert outs[1..] == [Hole(1, ""), Text("`")] && outs[1..][1..] == [Text("`")] && [Text("`")][1..] == [];
    assert Digits(1) == "1";
    assert Flat([Text("`")]) == "`";
    assert Flat(outs[1..]) == "$1`";
    assert Flat(outs) == "`$1`";
    var s := "`$1`";
    assert s[1..] == "$1`" && "$1`"[1..] == "1`" && "1`"[1..] == "`" && "`"[1..] == "";
    assert Rewrite("`", '`') == Rewritten("`", 0, NO_QUOTE);
    assert Rewrite("1`", '`') == Rewritten("1`", 0, NO_QUOTE);
    assert Rewrite("$1`", '`') == Rewritten("$1`", 0, NO_QUOTE);
  }
}
