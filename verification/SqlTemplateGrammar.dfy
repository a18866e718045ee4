/** Which parts of a template are parameters, said without the scanner: a template is written from
    code, quoted strings, comments, casts and parameter references, and the translator finds the
    references and nothing else. */
module SqlTemplateGrammar {
  import opened Ascii
  import opened Common
  import opened Sequences
  import opened SqlTemplate
  import opened SqlTemplateLaws

  datatype Segment =
    | Code(text: string)
    | Quoted(quote: char, body: string)
    | LineComment(body: string)
    | BlockComment(body: string)
    | Cast
    | Ref(sigil: char, name: string)

  ghost function Written(s: Segment): string
  {
    match s
    case Code(text) => text
    case Quoted(quote, body) => [quote] + body + [quote]
    case LineComment(body) => "--" + body + "\n"
    case BlockComment(body) => "/*" + body + "*/"
    case Cast => "::"
    case Ref(sigil, name) => [sigil] + name
  }

  ghost function Template(segments: seq<Segment>): string
  {
    if segments == [] then "" else Written(segments[0]) + Template(segments[1..])
  }

  /** What a name is made of: letters, digits, the underscore and everything outside of ASCII. */
  ghost predicate NameChar(c: char)
  {
    c in UPPER || c in LOWER || c in DIGITS || c == '_' || c >= '\U{80}'
  }

  ghost predicate QuoteMark(c: char)
  {
    c in "'\""
  }

  /** The translator tells names from the rest by ranges of characters, with the same result. */
  lemma NameCharIs(c: char)
    ensures NameChar(c) <==> !IsSpecial(c)
  {
    UpperIs(c);
    LowerIs(c);
    DigitIs(c);
  }

  lemma QuoteMarkIs(c: char)
    ensures QuoteMark(c) <==> IsQuote(c)
  {
  }

  /** The character at k is code: no sigil, and a quote only after a backslash. */
  ghost predicate CodeAt(q: string, k: nat)
    requires k < |q|
  {
    q[k] != ':' && q[k] != '@' && (QuoteMark(q[k]) ==> k > 0 && q[k - 1] == '\\')
  }

  /** No comment starts between the two characters. */
  ghost predicate NoComment(c: char, d: char)
  {
    !(c == '-' && d == '-') && !(c == '/' && d == '*')
  }

  /** From k on the body of a string has its quote after a backslash or doubled only. */
  ghost predicate Passes(body: string, k: nat, quote: char)
    requires k <= |body|
    decreases |body| - k
  {
    if k == |body| then true
    else if body[k] != quote || (k > 0 && body[k - 1] == '\\') then Passes(body, k + 1, quote)
    else k + 1 < |body| && body[k + 1] == quote && Passes(body, k + 2, quote)
  }

  ghost predicate WellWritten(s: Segment)
  {
    match s
    case Code(text) =>
      && text != "" && (forall i :: 0 <= i < |text| ==> CodeAt(text, i))
      && (forall i :: 0 <= i < |text| - 1 ==> NoComment(text[i], text[i + 1]))
    case Quoted(quote, body) => QuoteMark(quote) && Passes(body, 0, quote) && (body != "" ==> body[|body| - 1] != '\\')
    case LineComment(body) => '\n' !in body
    case BlockComment(body) =>
      (body != "" ==> body[0] != '/') && forall i :: 0 <= i < |body| - 1 ==> !(body[i] == '*' && body[i + 1] == '/')
    case Cast => true
    case Ref(sigil, name) =>
      && (sigil == ':' || sigil == '@') && 0 < |name| < 256
      && forall i :: 0 <= i < |name| ==> NameChar(name[i])
  }

  ghost predicate StartsWith(rest: seq<Segment>, c: char)
  {
    Template(rest) != "" && Template(rest)[0] == c
  }

  /** What may follow a segment: a template ends with code, a string or a reference, a reference
      ends at a special character of code or at a cast, and no two segments run together. */
  ghost predicate Follows(s: Segment, rest: seq<Segment>)
  {
    match s
    case Code(text) =>
      text != "" && rest != [] ==>
        && (Template(rest) != "" ==> NoComment(text[|text| - 1], Template(rest)[0]))
        && (rest[0].Quoted? ==> text[|text| - 1] != '\\')
    case Quoted(quote, _) => !StartsWith(rest, quote)
    case LineComment(_) => rest != []
    case BlockComment(_) => rest != [] && !StartsWith(rest, '*')
    case Cast => rest != []
    case Ref(_, _) =>
      || rest == [] || (rest[0].Cast? && !StartsWith(rest[1..], ':'))
      || (rest[0].Code? && rest[0].text != "" && !NameChar(rest[0].text[0]))
  }

  ghost predicate WellFormed(segments: seq<Segment>)
  {
    segments != [] ==> WellWritten(segments[0]) && Follows(segments[0], segments[1..]) && WellFormed(segments[1..])
  }

  /** The pieces of a template: its references, and the text before, between and after them. */
  ghost function Expected(lit: string, segments: seq<Segment>): seq<Piece>
    decreases |segments|
  {
    if segments == [] then [Lit(lit)]
    else if segments[0].Ref? then [Lit(lit), Par(segments[0].sigil, segments[0].name)] + Expected("", segments[1..])
    else Expected(lit + Written(segments[0]), segments[1..])
  }

  // ----- runs of the scanner

  ghost predicate IsPlain(lex: Lex)
  {
    !Inside(lex)
  }

  /** Between segments: nothing pending, outside strings and comments. */
  ghost predicate Between(q: string, c: Cursor)
  {
    Good(q, c) && c.start == -1 && IsPlain(c.lex) && !c.skip
  }

  lemma PlainStep(q: string, c: Cursor)
    requires Good(q, c) && c.i < |q| && c.start == -1 && IsPlain(c.lex) && !c.skip && CodeAt(q, c.i)
    requires c.i + 1 < |q| ==> NoComment(q[c.i], q[c.i + 1])
    ensures Advance(q, c.i, c.lex) == Moved(c.lex, c.i, false)
    ensures Step(q, c) == if c.i + 1 == |q| then Stepped(c.(i := c.i + 1, copied := |q|), [Lit(q[c.copied..])])
                          else Stepped(c.(i := c.i + 1), [])
  {
  }

  lemma ScanStep(q: string, c: Cursor)
    requires Good(q, c) && c.i < |q| && Step(q, c).Stepped?
    ensures Good(q, Step(q, c).next)
    ensures Scan(q, c) == After(Step(q, c).pieces, Scan(q, Step(q, c).next))
  {
    StepGood(q, c);
  }

  lemma AfterNothing(l: Lexed)
    ensures After([], l) == l
  {
    assert l.Lexed? ==> [] + l.pieces == l.pieces;
  }

  /** Code is passed over. */
  lemma {:induction false} CodeRun(q: string, c: Cursor, n: nat)
    requires Between(q, c) && c.i + n < |q|
    requires forall k :: c.i <= k < c.i + n ==> CodeAt(q, k) && NoComment(q[k], q[k + 1])
    ensures Between(q, c.(i := c.i + n)) && Scan(q, c) == Scan(q, c.(i := c.i + n))
    decreases n
  {
    hide Step, Scan, IsQuote, CodeAt, NoComment;
    if n > 0 {
      PlainStep(q, c);
      ScanStep(q, c);
      AfterNothing(Scan(q, c.(i := c.i + 1)));
      CodeRun(q, c.(i := c.i + 1), n - 1);
    }
  }

  /** The template ends with code. */
  lemma CodeEnd(q: string, c: Cursor)
    requires Between(q, c) && c.i < |q|
    requires forall k :: c.i <= k < |q| ==> CodeAt(q, k) && (k + 1 < |q| ==> NoComment(q[k], q[k + 1]))
    ensures Scan(q, c) == Lexed([Lit(q[c.copied..])], |q|)
  {
    var n := |q| - 1 - c.i;
    CodeRun(q, c, n);
    var c' := c.(i := c.i + n);
    PlainStep(q, c');
    ScanStep(q, c');
  }

  // ----- strings

  ghost predicate InQuote(q: string, c: Cursor, quote: char)
  {
    Good(q, c) && c.start == -1 && !c.skip && c.lex == Lex(true, quote, false, false)
  }

  /** One character of the body, or two when the quote is doubled. */
  lemma BodyStep(q: string, c: Cursor, quote: char)
    requires InQuote(q, c, quote) && IsQuote(quote) && 0 < c.i < |q|
    requires q[c.i] == quote && q[c.i - 1] != '\\' ==> c.i + 1 < |q| && q[c.i + 1] == quote
    ensures var n := if q[c.i] == quote && q[c.i - 1] != '\\' then 2 else 1;
            InQuote(q, c.(i := c.i + n), quote) && Scan(q, c) == Scan(q, c.(i := c.i + n))
  {
    var n := if q[c.i] == quote && q[c.i - 1] != '\\' then 2 else 1;
    var c1 := c.(i := c.i + n);
    assert Advance(q, c.i, c.lex) == Moved(c.lex, c.i + n - 1, false);
    assert Step(q, c) == Stepped(c1, []);
    ScanStep(q, c);
    AfterNothing(Scan(q, c1));
  }

  /** The body of a string is passed over. */
  lemma {:induction false} BodyRun(q: string, c: Cursor, quote: char, body: string, k: nat)
    requires InQuote(q, c, quote) && IsQuote(quote) && k <= |body| && Passes(body, k, quote)
    requires k < c.i && StandsAt(q, c.i - k, body) && c.i - k + |body| < |q| && q[c.i - k - 1] == quote
    ensures var c' := c.(i := c.i - k + |body|); InQuote(q, c', quote) && Scan(q, c) == Scan(q, c')
    decreases |body| - k
  {
    hide Scan, InQuote;
    if k < |body| {
      var b := c.i - k;
      assert q[b + k] == body[k];
      if k > 0 {
        assert q[b + (k - 1)] == body[k - 1];
      }
      if k + 1 < |body| {
        assert q[b + (k + 1)] == body[k + 1];
      }
      BodyStep(q, c, quote);
      var n := if q[c.i] == quote && q[c.i - 1] != '\\' then 2 else 1;
      BodyRun(q, c.(i := c.i + n), quote, body, k + n);
    }
  }

  lemma QuoteOpens(q: string, c: Cursor)
    requires Between(q, c) && c.i + 1 < |q| && IsQuote(q[c.i]) && (c.i > 0 ==> q[c.i - 1] != '\\')
    ensures var c1 := c.(i := c.i + 1, lex := Lex(true, q[c.i], false, false)); InQuote(q, c1, q[c.i]) && Scan(q, c) == Scan(q, c1)
  {
    var c1 := c.(i := c.i + 1, lex := Lex(true, q[c.i], false, false));
    assert Advance(q, c.i, c.lex) == Moved(c1.lex, c.i, false);
    assert Step(q, c) == Stepped(c1, []);
    ScanStep(q, c);
    AfterNothing(Scan(q, c1));
  }

  lemma QuoteCloses(q: string, c: Cursor, quote: char)
    requires InQuote(q, c, quote) && IsQuote(quote) && 0 < c.i && c.i + 1 < |q| && q[c.i] == quote != q[c.i + 1] && q[c.i - 1] != '\\'
    ensures var c1 := c.(i := c.i + 1, lex := Lex(false, quote, false, false)); Between(q, c1) && Scan(q, c) == Scan(q, c1)
  {
    var c1 := c.(i := c.i + 1, lex := Lex(false, quote, false, false));
    assert Advance(q, c.i, c.lex) == Moved(c1.lex, c.i, false);
    assert Step(q, c) == Stepped(c1, []);
    ScanStep(q, c);
    AfterNothing(Scan(q, c1));
  }

  /** The template ends with a string. */
  lemma QuoteCloseEnd(q: string, c: Cursor, quote: char)
    requires InQuote(q, c, quote) && IsQuote(quote) && 0 < c.i && c.i + 1 == |q| && q[c.i] == quote && q[c.i - 1] != '\\'
    ensures Scan(q, c) == Lexed([Lit(q[c.copied..])], |q|)
  {
    var c1 := c.(i := |q|, copied := |q|, lex := Lex(false, quote, false, false));
    assert Advance(q, c.i, c.lex) == Moved(c1.lex, c.i, false);
    assert Step(q, c) == Stepped(c1, [Lit(q[c.copied..])]);
    ScanStep(q, c);
    assert Scan(q, c1) == Lexed([], |q|);
  }

  /** Up to its closing quote. */
  lemma QuotedBody(q: string, c: Cursor, quote: char, body: string) returns (c': Cursor)
    requires Between(q, c) && (c.i > 0 ==> q[c.i - 1] != '\\')
    requires WellWritten(Quoted(quote, body)) && StandsAt(q, c.i, Written(Quoted(quote, body)))
    ensures InQuote(q, c', quote) && c'.i == c.i + 1 + |body| && c'.copied == c.copied && Scan(q, c) == Scan(q, c')
    ensures c'.i < |q| && q[c'.i] == quote && q[c'.i - 1] != '\\'
  {
    hide Between, InQuote, Scan, Passes;
    QuotedStands(q, c.i, quote, body);
    QuoteOpens(q, c);
    var c1 := c.(i := c.i + 1, lex := Lex(true, quote, false, false));
    BodyRun(q, c1, quote, body, 0);
    c' := c1.(i := c.i + 1 + |body|);
  }

  lemma QuotedStands(q: string, i: nat, quote: char, body: string)
    requires WellWritten(Quoted(quote, body)) && StandsAt(q, i, Written(Quoted(quote, body)))
    ensures var end := i + 1 + |body|;
            end < |q| && q[i] == quote && q[end] == quote && q[end - 1] != '\\' && StandsAt(q, i + 1, body)
  {
    var w, end := [quote] + body + [quote], i + 1 + |body|;
    assert q[i + 0] == w[0] && q[i + (|body| + 1)] == w[|body| + 1] && q[i + |body|] == w[|body|];
    forall k | 0 <= k < |body|
      ensures q[i + 1 + k] == body[k]
    {
      assert q[i + (k + 1)] == w[k + 1];
    }
  }

  /** A quoted string is passed over. */
  lemma QuotedRun(q: string, c: Cursor, quote: char, body: string) returns (c': Cursor)
    requires Between(q, c) && (c.i > 0 ==> q[c.i - 1] != '\\')
    requires WellWritten(Quoted(quote, body)) && StandsAt(q, c.i, Written(Quoted(quote, body)))
    requires c.i + |body| + 2 < |q| && q[c.i + |body| + 2] != quote
    ensures Between(q, c') && c'.i == c.i + |body| + 2 && c'.copied == c.copied && Scan(q, c) == Scan(q, c')
  {
    hide Between, InQuote, Scan, StandsAt;
    var c2 := QuotedBody(q, c, quote, body);
    QuoteCloses(q, c2, quote);
    c' := c2.(i := c2.i + 1, lex := Lex(false, quote, false, false));
  }

  // ----- comments

  ghost predicate InLine(q: string, c: Cursor)
  {
    Good(q, c) && c.start == -1 && !c.skip && c.lex.line && !c.lex.inString && !c.lex.block
  }

  lemma {:induction false} LineRun(q: string, c: Cursor, end: nat)
    requires InLine(q, c) && c.i <= end < |q| && forall k :: c.i <= k < end ==> q[k] != '\n'
    requires q[end] == '\n'
    ensures InLine(q, c.(i := end)) && Scan(q, c) == Scan(q, c.(i := end))
    decreases end - c.i
  {
    if c.i < end {
      var u := Advance(q, c.i, c.lex);
      assert u.lex == c.lex && (u.i == c.i || u.i == c.i + 1 < end);
      var c1 := c.(i := u.i + 1);
      assert Step(q, c) == Stepped(c1, []);
      ScanStep(q, c);
      AfterNothing(Scan(q, c1));
      LineRun(q, c1, end);
    }
  }

  lemma LineCommentRun(q: string, c: Cursor, end: nat)
    requires Between(q, c) && c.i + 2 <= end < |q| && q[c.i] == '-' && q[c.i + 1] == '-' && q[end] == '\n'
    requires forall k :: c.i + 2 <= k < end ==> q[k] != '\n'
    ensures Between(q, c.(i := end + 1)) && Scan(q, c) == Scan(q, c.(i := end + 1))
  {
    var c1 := c.(i := c.i + 2, lex := c.lex.(line := true));
    assert Advance(q, c.i, c.lex) == Moved(c1.lex, c.i + 1, true);
    assert Step(q, c) == Stepped(c1, []);
    ScanStep(q, c);
    AfterNothing(Scan(q, c1));
    LineRun(q, c1, end);
    var c2 := c1.(i := end);
    assert Advance(q, end, c2.lex) == Moved(c.lex, end, true);
    assert Step(q, c2) == Stepped(c.(i := end + 1), []);
    ScanStep(q, c2);
    AfterNothing(Scan(q, c.(i := end + 1)));
  }

  ghost predicate InBlock(q: string, c: Cursor)
  {
    Good(q, c) && c.start == -1 && !c.skip && c.lex.block && !c.lex.inString && !c.lex.line
  }

  lemma {:induction false} BlockRun(q: string, c: Cursor, end: nat)
    requires InBlock(q, c) && 0 < c.i <= end < |q| && q[end - 1] == '*' && q[end] == '/'
    requires forall k :: c.i <= k < end ==> !(q[k - 1] == '*' && q[k] == '/')
    ensures InBlock(q, c.(i := end)) && Scan(q, c) == Scan(q, c.(i := end))
    decreases end - c.i
  {
    if c.i < end {
      var u := Advance(q, c.i, c.lex);
      assert !(q[c.i - 1] == '*' && q[c.i] == '/');
      assert u.lex == c.lex && (u.i == c.i || u.i == c.i + 1 < end);
      var c1 := c.(i := u.i + 1);
      assert Step(q, c) == Stepped(c1, []);
      ScanStep(q, c);
      AfterNothing(Scan(q, c1));
      BlockRun(q, c1, end);
    }
  }

  /** An end of a block comment is one exactly when no asterisk follows: otherwise the slash opens a
      comment again. */
  lemma BlockEnds(q: string, i: nat, lex: Lex)
    requires 0 < i < |q| && lex.block && !lex.inString && !lex.line && q[i - 1] == '*' && q[i] == '/'
    ensures !Advance(q, i, lex).lex.block <==> !(i + 1 < |q| && q[i + 1] == '*')
  {
  }

  /** A block comment ends at its first end mark exactly when no asterisk follows it; else the
      scanner is in a comment again behind that asterisk. */
  lemma BlockCommentRun(q: string, c: Cursor, end: nat)
    requires Between(q, c) && c.i + 3 <= end < |q| && q[c.i] == '/' && q[c.i + 1] == '*'
    requires q[end - 1] == '*' && q[end] == '/'
    requires forall k :: c.i + 2 <= k < end ==> !(q[k - 1] == '*' && q[k] == '/')
    ensures if end + 1 < |q| && q[end + 1] == '*' then
              var c1 := c.(i := end + 2, lex := c.lex.(block := true)); InBlock(q, c1) && Scan(q, c) == Scan(q, c1)
            else Between(q, c.(i := end + 1)) && Scan(q, c) == Scan(q, c.(i := end + 1))
  {
    hide Scan;
    BlockOpens(q, c);
    var c1 := c.(i := c.i + 2, lex := c.lex.(block := true));
    BlockRun(q, c1, end);
    BlockMark(q, c1.(i := end), c);
  }

  lemma BlockOpens(q: string, c: Cursor)
    requires Between(q, c) && c.i + 1 < |q| && q[c.i] == '/' && q[c.i + 1] == '*'
    ensures var c1 := c.(i := c.i + 2, lex := c.lex.(block := true)); InBlock(q, c1) && Scan(q, c) == Scan(q, c1)
  {
    var c1 := c.(i := c.i + 2, lex := c.lex.(block := true));
    assert Advance(q, c.i, c.lex) == Moved(c1.lex, c.i + 1, true);
    assert Step(q, c) == Stepped(c1, []);
    ScanStep(q, c);
    AfterNothing(Scan(q, c1));
  }

  lemma BlockMark(q: string, c2: Cursor, c: Cursor)
    requires InBlock(q, c2) && 0 < c2.i < |q| && q[c2.i - 1] == '*' && q[c2.i] == '/'
    requires IsPlain(c.lex) && c2 == c.(i := c2.i, lex := c.lex.(block := true))
    ensures if c2.i + 1 < |q| && q[c2.i + 1] == '*' then
              var c1 := c2.(i := c2.i + 2); InBlock(q, c1) && Scan(q, c2) == Scan(q, c1)
            else Between(q, c.(i := c2.i + 1)) && Scan(q, c2) == Scan(q, c.(i := c2.i + 1))
  {
    var again := c2.i + 1 < |q| && q[c2.i + 1] == '*';
    var c3 := if again then c2.(i := c2.i + 2) else c.(i := c2.i + 1);
    assert Advance(q, c2.i, c2.lex) == Moved(c3.lex, c3.i - 1, true);
    assert Step(q, c2) == Stepped(c3, []);
    ScanStep(q, c2);
    AfterNothing(Scan(q, c3));
  }

  lemma CastRun(q: string, c: Cursor)
    requires Between(q, c) && c.i + 2 < |q| && q[c.i] == ':' && q[c.i + 1] == ':'
    ensures Between(q, c.(i := c.i + 2)) && Scan(q, c) == Scan(q, c.(i := c.i + 2))
  {
    ColonAdvance(q, c.i, c.lex);
    assert Step(q, c) == Stepped(c.(i := c.i + 2), []);
    ScanStep(q, c);
    AfterNothing(Scan(q, c.(i := c.i + 2)));
  }

  // ----- references

  /** Reading a parameter name. */
  ghost predicate Pending(q: string, c: Cursor)
  {
    Good(q, c) && c.start >= 0 && IsPlain(c.lex) && !c.skip
  }

  lemma NameStep(q: string, c: Cursor)
    requires Pending(q, c) && c.i + 1 < |q| && !IsSpecial(q[c.i])
    ensures Step(q, c) == Stepped(c.(i := c.i + 1), []) && Pending(q, c.(i := c.i + 1))
  {
    assert !IsQuote(q[c.i]) && q[c.i] != '-' && q[c.i] != '/' && q[c.i] != ':' && q[c.i] != '@' && q[c.i] != '\n';
    assert Advance(q, c.i, c.lex) == Moved(c.lex, c.i, false);
  }

  lemma {:induction false} NameRun(q: string, c: Cursor, n: nat)
    requires Pending(q, c) && c.i + n < |q| && forall k :: c.i <= k < c.i + n ==> !IsSpecial(q[k])
    ensures Pending(q, c.(i := c.i + n)) && Scan(q, c) == Scan(q, c.(i := c.i + n))
    decreases n
  {
    hide IsSpecial, Step;
    if n > 0 {
      NameStep(q, c);
      ScanStep(q, c);
      AfterNothing(Scan(q, c.(i := c.i + 1)));
      NameRun(q, c.(i := c.i + 1), n - 1);
    }
  }

  lemma SigilStep(q: string, c: Cursor)
    requires Between(q, c) && c.i + 1 < |q| && (q[c.i] == ':' || q[c.i] == '@') && q[c.i + 1] != ':'
    ensures var c1 := c.(i := c.i + 1, start := c.i); Pending(q, c1) && Scan(q, c) == Scan(q, c1)
  {
    var c1 := c.(i := c.i + 1, start := c.i);
    assert Advance(q, c.i, c.lex) == Moved(c.lex, c.i, false);
    assert Step(q, c) == Stepped(c1, []);
    ScanStep(q, c);
    AfterNothing(Scan(q, c1));
  }

  ghost function Found(q: string, c: Cursor, end: nat): seq<Piece>
    requires Good(q, c) && 0 <= c.start < end <= |q|
  {
    [Lit(q[c.copied..c.start]), Par(q[c.start], q[c.start + 1..end])]
  }

  /** A special character of code ends the name, and is then read as code. */
  lemma EndsAtCode(q: string, c: Cursor)
    requires Pending(q, c) && c.i < |q| && 0 < c.i - c.start - 1 < MAX_PARAM_NAME && IsSpecial(q[c.i]) && CodeAt(q, c.i)
    requires c.i + 1 < |q| ==> NoComment(q[c.i], q[c.i + 1])
    ensures var c1 := c.(start := -1, copied := c.i); Between(q, c1) && Scan(q, c) == After(Found(q, c, c.i), Scan(q, c1))
  {
    var c1 := c.(start := -1, copied := c.i);
    PlainStep(q, c1);
    assert Advance(q, c.i, c.lex) == Moved(c.lex, c.i, false);
    var r, r1 := Step(q, c), Step(q, c1);
    assert r == Stepped(r1.next, Found(q, c, c.i) + r1.pieces);
    ScanStep(q, c);
    ScanStep(q, c1);
    AfterAfter(Found(q, c, c.i), r1.pieces, Scan(q, r1.next));
  }

  lemma AfterAfter(a: seq<Piece>, b: seq<Piece>, l: Lexed)
    ensures After(a + b, l) == After(a, After(b, l))
  {
    if l.Lexed? {
      Assoc(a, b, l.pieces);
    }
  }

  /** So does a cast. */
  lemma EndsAtCast(q: string, c: Cursor)
    requires Pending(q, c) && c.i + 2 < |q| && 0 < c.i - c.start - 1 < MAX_PARAM_NAME
    requires q[c.i] == ':' && q[c.i + 1] == ':' && q[c.i + 2] != ':'
    ensures var c1 := c.(start := -1, copied := c.i, i := c.i + 2);
            Between(q, c1) && Scan(q, c) == After(Found(q, c, c.i), Scan(q, c1))
  {
    var c1 := c.(start := -1, copied := c.i, i := c.i + 1, skip := true);
    var c2 := c.(start := -1, copied := c.i, i := c.i + 2);
    ColonAdvance(q, c.i, c.lex);
    ColonAdvance(q, c.i + 1, c.lex);
    assert Step(q, c) == Stepped(c1, Found(q, c, c.i));
    ScanStep(q, c);
    assert Step(q, c1) == Stepped(c2, []);
    ScanStep(q, c1);
    AfterNothing(Scan(q, c2));
  }

  /** So does the end of the template. */
  lemma EndsAtEnd(q: string, c: Cursor)
    requires Pending(q, c) && c.i + 1 == |q| && 0 < c.i - c.start < MAX_PARAM_NAME && !IsSpecial(q[c.i])
    ensures Scan(q, c) == Lexed(Found(q, c, |q|) + [Lit("")], |q|)
  {
    assert !IsQuote(q[c.i]) && q[c.i] != '-' && q[c.i] != '/' && q[c.i] != ':' && q[c.i] != '@' && q[c.i] != '\n';
    assert Advance(q, c.i, c.lex) == Moved(c.lex, c.i, false);
    assert q[|q|..] == "";
    var c1 := c.(i := |q|, start := -1, copied := |q|);
    assert Step(q, c) == Stepped(c1, Found(q, c, |q|) + [Lit("")]);
    ScanStep(q, c);
    assert Scan(q, c1) == Lexed([], |q|);
  }

  // ----- whole templates

  /** The segment stands at a position, character by character. */
  ghost predicate StandsAt(q: string, i: nat, text: string)
  {
    i + |text| <= |q| && forall k :: 0 <= k < |text| ==> q[i + k] == text[k]
  }

  ghost predicate NextFits(s: Segment, next: char)
  {
    match s
    case Code(text) => text != "" ==> NoComment(text[|text| - 1], next)
    case Quoted(quote, _) => next != quote
    case BlockComment(_) => next != '*'
    case _ => true
  }

  /** A string starts only where no backslash precedes it. */
  ghost predicate Clear(q: string, i: nat, s: Segment)
  {
    s.Quoted? && 0 < i <= |q| ==> q[i - 1] != '\\'
  }

  /** A segment that is no reference, with something after it, is passed over. */
  lemma SegmentRun(q: string, c: Cursor, s: Segment) returns (c': Cursor)
    requires Between(q, c) && WellWritten(s) && !s.Ref? && StandsAt(q, c.i, Written(s)) && Clear(q, c.i, s)
    requires c.i + |Written(s)| < |q| && NextFits(s, q[c.i + |Written(s)|])
    ensures Between(q, c') && c'.i == c.i + |Written(s)| && c'.copied == c.copied && Scan(q, c) == Scan(q, c')
  {
    hide Between, Scan;
    var w, i := Written(s), c.i;
    match s
    case Code(text) =>
      CodeStands(q, i, text);
      CodeRun(q, c, |text|);
      c' := c.(i := i + |text|);
    case Quoted(quote, body) =>
      c' := QuotedRun(q, c, quote, body);
    case LineComment(body) =>
      var end := i + 2 + |body|;
      assert q[i + 0] == w[0] && q[i + 1] == w[1] && q[i + (2 + |body|)] == w[2 + |body|];
      forall k | i + 2 <= k < end
        ensures q[k] != '\n'
      {
        assert q[i + (k - i)] == w[k - i] == body[k - i - 2];
      }
      LineCommentRun(q, c, end);
      c' := c.(i := end + 1);
    case BlockComment(body) =>
      BlockStands(q, c.i, body);
      BlockCommentRun(q, c, i + 3 + |body|);
      c' := c.(i := i + 4 + |body|);
    case Cast =>
      assert q[i + 0] == w[0] && q[i + 1] == w[1];
      CastRun(q, c);
      c' := c.(i := i + 2);
  }

  lemma CodeStands(q: string, i: nat, text: string)
    requires WellWritten(Code(text)) && StandsAt(q, i, text)
    ensures forall k :: i <= k < i + |text| ==> CodeAt(q, k)
    ensures forall k :: i <= k < i + |text| && k + 1 < |q| && (k + 1 == i + |text| ==> NoComment(text[|text| - 1], q[k + 1])) ==>
              NoComment(q[k], q[k + 1])
  {
    forall k | i <= k < i + |text|
      ensures CodeAt(q, k) && (k + 1 < i + |text| ==> NoComment(q[k], q[k + 1])) && (k + 1 == i + |text| ==> q[k] == text[|text| - 1])
    {
      assert q[i + (k - i)] == text[k - i] && CodeAt(text, k - i);
      if k > i {
        assert q[i + (k - 1 - i)] == text[k - 1 - i];
      }
      if k + 1 < i + |text| {
        assert q[i + (k + 1 - i)] == text[k + 1 - i];
        assert NoComment(text[k - i], text[k - i + 1]);
      }
    }
  }

  lemma BlockStands(q: string, i: nat, body: string)
    requires WellWritten(BlockComment(body)) && StandsAt(q, i, "/*" + body + "*/")
    ensures var end := i + 3 + |body|;
            && q[i] == '/' && q[i + 1] == '*' && q[end - 1] == '*' && q[end] == '/'
            && forall k :: i + 2 <= k < end ==> !(q[k - 1] == '*' && q[k] == '/')
  {
    var w, end := "/*" + body + "*/", i + 3 + |body|;
    assert q[i + 0] == w[0] && q[i + 1] == w[1] && q[i + (|body| + 2)] == w[|body| + 2] && q[i + (|body| + 3)] == w[|body| + 3];
    forall k | i + 2 <= k < end
      ensures !(q[k - 1] == '*' && q[k] == '/')
    {
      assert q[i + (k - i)] == w[k - i] && q[i + (k - 1 - i)] == w[k - 1 - i];
      if i + 2 < k < end - 1 {
        assert !(body[k - i - 3] == '*' && body[k - i - 2] == '/');
      }
    }
  }

  lemma TemplateNonEmpty(segments: seq<Segment>)
    requires WellFormed(segments) && segments != []
    ensures |Template(segments)| > 0
  {
    assert |Written(segments[0])| > 0;
  }

  lemma Cut(q: string, i: nat, s: Segment, rest: seq<Segment>)
    requires i <= |q| && q[i..] == Written(s) + Template(rest)
    ensures StandsAt(q, i, Written(s)) && i + |Written(s)| <= |q| && q[i + |Written(s)|..] == Template(rest)
    ensures Template(rest) != "" ==> i + |Written(s)| < |q| && q[i + |Written(s)|] == Template(rest)[0]
  {
    var w, t := Written(s), q[i..];
    assert forall k :: 0 <= k < |w| ==> q[i + k] == t[k] == w[k];
    assert q[i + |w|..] == t[|w|..];
  }

  lemma LitMore(q: string, copied: nat, i: nat, w: string)
    requires copied <= i && StandsAt(q, i, w)
    ensures q[copied..i + |w|] == q[copied..i] + w
  {
    assert q[i..i + |w|] == w;
  }

  lemma ExpectedNext(lit: string, segments: seq<Segment>)
    requires segments != []
    ensures Expected(lit, segments) ==
            if segments[0].Ref? then [Lit(lit), Par(segments[0].sigil, segments[0].name)] + Expected("", segments[1..])
            else Expected(lit + Written(segments[0]), segments[1..])
  {
  }

  /** The scanner cuts a template at its references. */
  lemma {:induction false} ScanTemplate(q: string, c: Cursor, segments: seq<Segment>)
    requires Between(q, c) && segments != [] && WellFormed(segments) && q[c.i..] == Template(segments) && Clear(q, c.i, segments[0])
    ensures Scan(q, c) == Lexed(Expected(q[c.copied..c.i], segments), |q|)
    decreases |segments|, 1
  {
    hide WellFormed, WellWritten, Follows, Template, Scan, Expected, StandsAt, Written;
    var s, rest := segments[0], segments[1..];
    Parts(segments);
    Cut(q, c.i, s, rest);
    ExpectedNext(q[c.copied..c.i], segments);
    if s.Ref? {
      ScanRef(q, c, segments);
    } else if rest != [] {
      TemplateNonEmpty(rest);
      LitMore(q, c.copied, c.i, Written(s));
      FollowsNext(s, rest);
      var c' := SegmentRun(q, c, s);
      ClearNext(q, c.i, s, rest);
      ScanTemplate(q, c', rest);
    } else {
      LastSegment(q, c, s);
      LitMore(q, c.copied, c.i, Written(s));
      ExpectedEnd(q[c.copied..c.i] + Written(s));
      assert q[c.copied..] == q[c.copied..c.i + |Written(s)|];
    }
  }

  lemma ClearNext(q: string, i: nat, s: Segment, rest: seq<Segment>)
    requires WellWritten(s) && Follows(s, rest) && !s.Ref? && rest != [] && StandsAt(q, i, Written(s))
    ensures Clear(q, i + |Written(s)|, rest[0])
  {
    hide Template;
    var w := Written(s);
    assert q[i + (|w| - 1)] == w[|w| - 1];
  }

  lemma Parts(segments: seq<Segment>)
    requires segments != [] && WellFormed(segments)
    ensures var s, rest := segments[0], segments[1..];
            WellWritten(s) && Follows(s, rest) && WellFormed(rest) && Template(segments) == Written(s) + Template(rest)
    ensures Template([]) == ""
  {
  }

  lemma FollowsNext(s: Segment, rest: seq<Segment>)
    requires Follows(s, rest) && rest != [] && Template(rest) != "" && !s.Ref?
    ensures NextFits(s, Template(rest)[0])
  {
    hide Template;
  }

  lemma ExpectedEnd(lit: string)
    ensures Expected(lit, []) == [Lit(lit)]
  {
  }

  /** A template ends with code or a string. */
  lemma LastSegment(q: string, c: Cursor, s: Segment)
    requires Between(q, c) && WellWritten(s) && Follows(s, []) && !s.Ref? && StandsAt(q, c.i, Written(s)) && Clear(q, c.i, s)
    requires |q| == c.i + |Written(s)|
    ensures Scan(q, c) == Lexed([Lit(q[c.copied..])], |q|)
  {
    hide Scan, Between, InQuote;
    match s
    case Code(text) =>
      CodeStands(q, c.i, text);
      CodeEnd(q, c);
    case Quoted(quote, body) =>
      var c' := QuotedBody(q, c, quote, body);
      QuoteCloseEnd(q, c', quote);
  }

  lemma NamePlain(s: Segment)
    requires s.Ref? && WellWritten(s)
    ensures (s.sigil == ':' || s.sigil == '@') && 0 < |s.name| < MAX_PARAM_NAME
    ensures forall i :: 0 <= i < |s.name| ==> !IsSpecial(s.name[i])
  {
    hide NameChar, IsSpecial;
    forall i | 0 <= i < |s.name|
      ensures !IsSpecial(s.name[i])
    {
      NameCharIs(s.name[i]);
    }
  }

  lemma NotSpecial(c: char)
    requires !IsSpecial(c)
    ensures c != ':' && c != '\\'
  {
  }

  /** What stands at the place of a reference. */
  lemma RefStands(q: string, i: nat, s: Segment)
    requires s.Ref? && WellWritten(s) && StandsAt(q, i, Written(s))
    ensures i + 1 + |s.name| <= |q| && q[i] == s.sigil && 0 < |s.name| < MAX_PARAM_NAME && (s.sigil == ':' || s.sigil == '@')
    ensures forall k :: 0 <= k < |s.name| ==> q[i + 1 + k] == s.name[k] && !IsSpecial(q[i + 1 + k])
  {
    hide WellWritten, NameChar, IsSpecial;
    NamePlain(s);
    var w := Written(s);
    assert q[i + 0] == w[0];
    forall k | 0 <= k < |s.name|
      ensures q[i + 1 + k] == s.name[k]
    {
      assert q[i + (k + 1)] == w[k + 1];
    }
  }

  /** Reading the name up to a place inside or at its end. */
  lemma ReadName(q: string, c: Cursor, s: Segment, n: nat)
    requires Between(q, c) && s.Ref? && WellWritten(s) && StandsAt(q, c.i, Written(s)) && n <= |s.name| && c.i + 1 + n < |q|
    ensures var p := c.(i := c.i + 1 + n, start := c.i); Pending(q, p) && Scan(q, c) == Scan(q, p)
  {
    hide Scan, IsSpecial, WellWritten, Written, StandsAt, Between, Pending;
    RefStands(q, c.i, s);
    assert q[c.i + 1 + 0] == s.name[0];
    NotSpecial(q[c.i + 1]);
    SigilStep(q, c);
    forall k | c.i + 1 <= k < c.i + 1 + n
      ensures !IsSpecial(q[k])
    {
      assert q[c.i + 1 + (k - c.i - 1)] == s.name[k - c.i - 1];
    }
    NameRun(q, c.(i := c.i + 1, start := c.i), n);
  }

  lemma RefText(q: string, c: Cursor, s: Segment)
    requires Between(q, c) && s.Ref? && WellWritten(s) && StandsAt(q, c.i, Written(s))
    ensures var end := c.i + 1 + |s.name|;
            && c.copied <= c.i < end <= |q| && q[c.i] == s.sigil && q[c.i + 1..end] == s.name
            && 0 < |s.name| < MAX_PARAM_NAME && q[end - 1] == s.name[|s.name| - 1] && !IsSpecial(q[end - 1]) && q[end - 1] != '\\'
  {
    hide IsSpecial, WellWritten, Written, StandsAt;
    RefStands(q, c.i, s);
    var k := |s.name| - 1;
    assert q[c.i + 1 + k] == s.name[k];
    NotSpecial(q[c.i + 1 + k]);
  }

  lemma {:induction false} ScanRef(q: string, c: Cursor, segments: seq<Segment>)
    requires Between(q, c) && segments != [] && WellFormed(segments) && q[c.i..] == Template(segments) && segments[0].Ref?
    ensures Scan(q, c) == Lexed(Expected(q[c.copied..c.i], segments), |q|)
    decreases |segments|, 0
  {
    hide WellFormed, WellWritten, Template, Scan, Expected, StandsAt, Written, NameChar, Follows, Between;
    var s, rest := segments[0], segments[1..];
    InText(q, c);
    Parts(segments);
    Cut(q, c.i, s, rest);
    RefText(q, c, s);
    RefLength(s);
    RefFollows(s, rest);
    ExpectedNext(q[c.copied..c.i], segments);
    var end := c.i + 1 + |s.name|;
    if rest == [] {
      RefAtEnd(q, c, s);
      ExpectedEnd("");
    } else if rest[0].Code? {
      CodeThen(q, end, rest);
      var c1 := RefBeforeCode(q, c, s, rest[0].text);
      EmptySlice(q, end);
      NotQuoted(q, end, rest[0]);
      ScanTemplate(q, c1, rest);
    } else {
      CastThen(q, end, rest);
      var c2 := RefBeforeCast(q, c, s);
      ExpectedNext("", rest);
      Parts(rest);
      AfterCast(q, end, rest[1..][0]);
      ScanTemplate(q, c2, rest[1..]);
    }
  }

  lemma RefFollows(s: Segment, rest: seq<Segment>)
    requires s.Ref? && Follows(s, rest)
    ensures || rest == [] || (rest[0].Cast? && !StartsWith(rest[1..], ':'))
            || (rest[0].Code? && rest[0].text != "" && !NameChar(rest[0].text[0]))
  {
    hide NameChar, StartsWith;
  }

  lemma NotQuoted(q: string, i: nat, s: Segment)
    requires s.Code?
    ensures Clear(q, i, s)
  {
  }

  lemma AfterCast(q: string, end: nat, s: Segment)
    requires end + 2 <= |q| && q[end + 1] == ':'
    ensures Clear(q, end + 2, s)
  {
  }

  lemma CodeThen(q: string, end: nat, rest: seq<Segment>)
    requires rest != [] && rest[0].Code? && WellFormed(rest) && end <= |q| && q[end..] == Template(rest)
    ensures var text := rest[0].text;
            && WellWritten(rest[0]) && text != "" && StandsAt(q, end, text) && end < |q|
            && (end + |text| < |q| ==> NoComment(text[|text| - 1], q[end + |text|]))
  {
    hide NoComment, CodeAt;
    var text := rest[0].text;
    Cut(q, end, rest[0], rest[1..]);
  }

  lemma RefLength(s: Segment)
    requires s.Ref?
    ensures |Written(s)| == 1 + |s.name|
  {
  }

  lemma InText(q: string, c: Cursor)
    requires Between(q, c)
    ensures c.copied <= c.i <= |q|
  {
  }

  lemma EmptySlice(q: string, i: nat)
    requires i <= |q|
    ensures q[i..i] == ""
  {
  }

  lemma CastThen(q: string, end: nat, rest: seq<Segment>)
    requires rest != [] && rest[0].Cast? && WellFormed(rest) && !StartsWith(rest[1..], ':') && end <= |q| && q[end..] == Template(rest)
    ensures rest[1..] != [] && end + 2 < |q| && q[end] == ':' && q[end + 1] == ':' && q[end + 2] != ':'
    ensures q[end..end + 2] == "::" && q[end + 2..] == Template(rest[1..]) && "" + Written(Cast) == "::"
  {
    TemplateNonEmpty(rest[1..]);
    Cut(q, end, Cast, rest[1..]);
    assert q[end + 0] == "::"[0] && q[end + 1] == "::"[1];
  }

  /** A reference at the end of the template. */
  lemma RefAtEnd(q: string, c: Cursor, s: Segment)
    requires Between(q, c) && s.Ref? && WellWritten(s) && StandsAt(q, c.i, Written(s)) && c.i + 1 + |s.name| == |q|
    ensures Scan(q, c) == Lexed([Lit(q[c.copied..c.i]), Par(s.sigil, s.name)] + [Lit("")], |q|)
  {
    hide Scan, IsSpecial, WellWritten, StandsAt, Written;
    RefText(q, c, s);
    ReadName(q, c, s, |s.name| - 1);
    EndsAtEnd(q, c.(i := |q| - 1, start := c.i));
  }

  lemma RefBeforeCode(q: string, c: Cursor, s: Segment, text: string) returns (c1: Cursor)
    requires Between(q, c) && s.Ref? && WellWritten(s) && StandsAt(q, c.i, Written(s)) && c.i + 1 + |s.name| < |q|
    requires WellWritten(Code(text)) && StandsAt(q, c.i + 1 + |s.name|, text) && text != "" && !NameChar(text[0])
    requires var end := c.i + 1 + |s.name| + |text|; end < |q| ==> NoComment(text[|text| - 1], q[end])
    ensures Between(q, c1) && c1.i == c.i + 1 + |s.name| == c1.copied
    ensures Scan(q, c) == After([Lit(q[c.copied..c.i]), Par(s.sigil, s.name)], Scan(q, c1))
  {
    hide Scan, WellWritten, Written, StandsAt, IsSpecial, CodeAt, NoComment, NameChar, Between, Pending;
    var end := c.i + 1 + |s.name|;
    RefText(q, c, s);
    CodeStart(q, end, text);
    NameCharIs(text[0]);
    ReadName(q, c, s, |s.name|);
    var p := c.(i := end, start := c.i);
    EndsAtCode(q, p);
    c1 := p.(start := -1, copied := end);
  }

  lemma RefBeforeCast(q: string, c: Cursor, s: Segment) returns (c2: Cursor)
    requires Between(q, c) && s.Ref? && WellWritten(s) && StandsAt(q, c.i, Written(s))
    requires var end := c.i + 1 + |s.name|; end + 2 < |q| && q[end] == ':' && q[end + 1] == ':' && q[end + 2] != ':'
    ensures Between(q, c2) && c2.copied == c.i + 1 + |s.name| && c2.i == c2.copied + 2
    ensures Scan(q, c) == After([Lit(q[c.copied..c.i]), Par(s.sigil, s.name)], Scan(q, c2))
  {
    hide Scan, StandsAt, IsSpecial, WellWritten, Written, Between, Pending;
    var end := c.i + 1 + |s.name|;
    RefText(q, c, s);
    ReadName(q, c, s, |s.name|);
    var p := c.(i := end, start := c.i);
    EndsAtCast(q, p);
    c2 := p.(start := -1, copied := end, i := end + 2);
  }

  lemma CodeStart(q: string, i: nat, text: string)
    requires WellWritten(Code(text)) && StandsAt(q, i, text)
    requires i + |text| < |q| ==> NoComment(text[|text| - 1], q[i + |text|])
    ensures q[i] == text[0] && CodeAt(q, i) && (i + 1 < |q| ==> NoComment(q[i], q[i + 1]))
  {
    assert q[i + 0] == text[0];
    CodeStands(q, i, text);
  }

  /** The translator finds exactly the references of a well-formed template, and keeps the rest. */
  lemma ReferencesFound(segments: seq<Segment>)
    requires segments != [] && WellFormed(segments)
    ensures Scan(Template(segments), START) == Lexed(Expected("", segments), |Template(segments)|)
  {
    var q := Template(segments);
    assert q[0..] == q && q[0..0] == "";
    ScanTemplate(q, START, segments);
  }

  // ----- what may follow a reference

  /** A colon that starts no cast, or an at sign. */
  ghost predicate LoneSigil(q: string, i: nat)
    requires i < |q|
  {
    q[i] == '@' || (q[i] == ':' && !(i + 1 < |q| && q[i + 1] == ':'))
  }

  /** The special character at i ends the name before it: it is no lone sigil and opens no string
      or comment. */
  ghost predicate EndsName(q: string, i: nat)
    requires i < |q|
  {
    !LoneSigil(q, i) && !QuoteMark(q[i]) && (i + 1 < |q| ==> NoComment(q[i], q[i + 1]))
  }

  /** The scan gives this text and this parameter first. */
  ghost predicate Begins(l: Lexed, lit: string, p: Piece)
  {
    l.Lexed? && |l.pieces| >= 2 && l.pieces[0] == Lit(lit) && l.pieces[1] == p
  }

  lemma SpecialStep(q: string, c: Cursor)
    requires Pending(q, c) && c.i < |q| && IsSpecial(q[c.i]) && 0 < c.i - c.start - 1 < MAX_PARAM_NAME && q[c.i - 1] != '\\'
    ensures var r := Step(q, c);
            if LoneSigil(q, c.i) then r.Broken?
            else if EndsName(q, c.i) then r.Stepped? && |r.pieces| >= 2 && r.pieces[..2] == Found(q, c, c.i)
            else r.Stepped? && r.pieces == [] && r.next.start == c.start && r.next.copied == c.copied && r.next.i > c.i
  {
  }

  /** Any parameter the scan gives from here on has a longer name, or more text before it. */
  ghost predicate Past(q: string, c: Cursor, copied: nat, start: nat, n: nat)
  {
    && Good(q, c) && c.copied == copied <= start < c.i
    && (if c.start == start then c.i > start + 1 + n else c.start == -1 || c.start > start)
  }

  /** What a step from there gives. */
  ghost predicate PastAfter(q: string, r: Stepped, copied: nat, start: nat, n: nat)
  {
    r.Stepped? ==>
      if r.pieces == [] then Past(q, r.next, copied, start, n)
      else if |r.pieces| == 1 then r.next.i == |q|
      else r.pieces[0].Lit? && r.pieces[1].Par? && (|r.pieces[0].text| > start - copied || |r.pieces[1].name| > n)
  }

  lemma PastEnd(q: string, c: Cursor, copied: nat, start: nat, n: nat)
    requires Past(q, c, copied, start, n) && c.i < |q|
    ensures PastAfter(q, EndStep(q, c), copied, start, n)
  {
    var special, last := IsSpecial(q[c.i]), c.i == |q| - 1;
    hide IsSpecial;
    var end := if last && !special then c.i + 1 else c.i;
    if c.start >= 0 && (special || last) && 0 < end - c.start - 1 < MAX_PARAM_NAME {
      var found := [Lit(q[c.copied..c.start]), Par(q[c.start], q[c.start + 1..end])];
      assert found <= EndStep(q, c).pieces;
      assert |q[c.copied..c.start]| == c.start - copied && |q[c.start + 1..end]| == end - c.start - 1;
    }
  }

  lemma PastStep(q: string, c: Cursor, copied: nat, start: nat, n: nat)
    requires Past(q, c, copied, start, n) && c.i < |q|
    ensures PastAfter(q, Step(q, c), copied, start, n)
  {
    hide Advance, EndStep, IsSpecial;
    var u := Advance(q, c.i, c.lex);
    PastEnd(q, c.(lex := u.lex, skip := true), copied, start, n);
    PastEnd(q, c.(lex := u.lex, skip := false), copied, start, n);
  }

  lemma {:induction false} NameGoesOn(q: string, c: Cursor, copied: nat, start: nat, p: Piece)
    requires p.Par? && Past(q, c, copied, start, |p.name|)
    ensures !Begins(Scan(q, c), q[copied..start], p)
    decreases |q| - c.i
  {
    hide Step;
    if c.i < |q| && Step(q, c).Stepped? {
      PastStep(q, c, copied, start, |p.name|);
      StepGood(q, c);
      ScanStep(q, c);
      var r := Step(q, c);
      if r.pieces == [] {
        AfterNothing(Scan(q, r.next));
        NameGoesOn(q, r.next, copied, start, p);
      }
    }
  }

  /** A reference is cut off at the special character after its name exactly when that character is
      no lone sigil and opens no string or comment. A lone sigil fails the whole scan; a string or a
      comment becomes part of the name. */
  lemma NameEnds(q: string, c: Cursor, s: Segment)
    requires Between(q, c) && s.Ref? && WellWritten(s) && StandsAt(q, c.i, Written(s))
    requires var end := c.i + 1 + |s.name|; end < |q| && !NameChar(q[end])
    ensures var end := c.i + 1 + |s.name|;
            && (Begins(Scan(q, c), q[c.copied..c.i], Par(s.sigil, s.name)) <==> EndsName(q, end) && Scan(q, c).Lexed?)
            && (LoneSigil(q, end) ==> Scan(q, c).Failed?)
  {
    hide WellWritten, StandsAt, Written, IsSpecial, Step, EndsName, LoneSigil, Scan, NameChar;
    var end := c.i + 1 + |s.name|;
    RefText(q, c, s);
    NameCharIs(q[end]);
    ReadName(q, c, s, |s.name|);
    var p := c.(i := end, start := c.i);
    SpecialStep(q, p);
    SpecialScan(q, p, s);
  }

  lemma SpecialScan(q: string, p: Cursor, s: Segment)
    requires Pending(q, p) && p.i < |q| && s.Ref? && p.i == p.start + 1 + |s.name|
    requires Par(q[p.start], q[p.start + 1..p.i]) == Par(s.sigil, s.name)
    requires var r := Step(q, p);
             if LoneSigil(q, p.i) then r.Broken?
             else if EndsName(q, p.i) then r.Stepped? && |r.pieces| >= 2 && r.pieces[..2] == Found(q, p, p.i)
             else r.Stepped? && r.pieces == [] && r.next.start == p.start && r.next.copied == p.copied && r.next.i > p.i
    ensures Begins(Scan(q, p), q[p.copied..p.start], Par(s.sigil, s.name)) <==> EndsName(q, p.i) && Scan(q, p).Lexed?
    ensures LoneSigil(q, p.i) ==> Scan(q, p).Failed?
  {
    hide Step;
    var r := Step(q, p);
    if r.Stepped? {
      ScanStep(q, p);
      var l := Scan(q, r.next);
      if EndsName(q, p.i) {
        if l.Lexed? {
          assert (r.pieces + l.pieces)[..2] == r.pieces[..2];
          assert r.pieces[..2][0] == r.pieces[0] && r.pieces[..2][1] == r.pieces[1];
        }
      } else {
        AfterNothing(l);
        NameGoesOn(q, r.next, p.copied, p.start, Par(s.sigil, s.name));
      }
    }
  }

  /** A template that starts with a reference: for every name and every character that cannot be part
      of one, is no sigil and opens no string or comment, exactly that name is the first parameter. */
  lemma NameThen(sigil: char, name: string, rest: string)
    requires (sigil == ':' || sigil == '@') && 0 < |name| < 256 && forall i :: 0 <= i < |name| ==> NameChar(name[i])
    requires rest != "" && !NameChar(rest[0]) && rest[0] != '@' && !QuoteMark(rest[0])
    requires rest[0] == ':' ==> |rest| > 1 && rest[1] == ':'
    requires |rest| > 1 ==> NoComment(rest[0], rest[1])
    ensures var l := Scan([sigil] + name + rest, START); l.Lexed? ==> Begins(l, "", Par(sigil, name))
  {
    hide NameChar, QuoteMark, Scan, Begins;
    var s, q := Ref(sigil, name), [sigil] + name + rest;
    var end := 1 + |name|;
    assert StandsAt(q, 0, Written(s));
    assert q[end] == rest[0] && (|rest| > 1 ==> q[end + 1] == rest[1]);
    NameEnds(q, START, s);
    assert q[0..0] == "";
  }

  /** A comment directly after a reference is read as part of the name. */
  lemma CommentInName()
    ensures Scan(":a--\n ", START) == Lexed([Lit(""), Par(':', "a--\n"), Lit(" ")], 6)
  {
    var q := ":a--\n ";
    var line := PLAIN.(line := true);
    CommentSteps(q);
    hide Step, IsSpecial, Advance;
    var c1, c2 := Cursor(1, 0, 0, PLAIN, false), Cursor(2, 0, 0, PLAIN, false);
    var c4, c5, c6 := Cursor(4, 0, 0, line, false), Cursor(5, 0, 0, PLAIN, false), Cursor(6, -1, 6, PLAIN, false);
    assert Scan(q, c6) == Lexed([], 6);
    assert Scan(q, c5) == Lexed([Lit(""), Par(':', "a--\n"), Lit(" ")], 6);
    assert Scan(q, c4) == Scan(q, c5);
    assert Scan(q, c2) == Scan(q, c4);
    assert Scan(q, c1) == Scan(q, c2);
  }

  lemma CommentSteps(q: string)
    requires q == ":a--\n "
    ensures var line := PLAIN.(line := true);
            && Step(q, START) == Stepped(Cursor(1, 0, 0, PLAIN, false), [])
            && Step(q, Cursor(1, 0, 0, PLAIN, false)) == Stepped(Cursor(2, 0, 0, PLAIN, false), [])
            && Step(q, Cursor(2, 0, 0, PLAIN, false)) == Stepped(Cursor(4, 0, 0, line, false), [])
            && Step(q, Cursor(4, 0, 0, line, false)) == Stepped(Cursor(5, 0, 0, PLAIN, false), [])
            && Step(q, Cursor(5, 0, 0, PLAIN, false))
                 == Stepped(Cursor(6, -1, 6, PLAIN, false), [Lit(""), Par(':', "a--\n"), Lit(" ")])
  {
    assert q[0..0] == "" && q[1..5] == "a--\n" && q[5..] == " ";
  }

  /** So is a string, up to its closing quote. */
  lemma StringInName()
    ensures Scan(":a'b' ", START) == Lexed([Lit(""), Par(':', "a'b"), Lit("' ")], 6)
  {
    var q := ":a'b' ";
    var inside, after := Lex(true, '\'', false, false), Lex(false, '\'', false, false);
    StringSteps(q);
    StringEnds(q);
    hide Step, IsSpecial, Advance;
    var c1, c2 := Cursor(1, 0, 0, PLAIN, false), Cursor(2, 0, 0, PLAIN, false);
    var c3, c4 := Cursor(3, 0, 0, inside, false), Cursor(4, 0, 0, inside, false);
    var c5, c6 := Cursor(5, -1, 4, after, false), Cursor(6, -1, 6, after, false);
    assert Scan(q, c6) == Lexed([], 6);
    assert Scan(q, c5) == Lexed([Lit("' ")], 6);
    assert [Lit(""), Par(':', "a'b")] + [Lit("' ")] == [Lit(""), Par(':', "a'b"), Lit("' ")];
    assert Scan(q, c4) == Lexed([Lit(""), Par(':', "a'b"), Lit("' ")], 6);
    assert Scan(q, c3) == Scan(q, c4);
    assert Scan(q, c2) == Scan(q, c3);
    assert Scan(q, c1) == Scan(q, c2);
  }

  lemma StringSteps(q: string)
    requires q == ":a'b' "
    ensures var inside := Lex(true, '\'', false, false);
            && Step(q, START) == Stepped(Cursor(1, 0, 0, PLAIN, false), [])
            && Step(q, Cursor(1, 0, 0, PLAIN, false)) == Stepped(Cursor(2, 0, 0, PLAIN, false), [])
            && Step(q, Cursor(2, 0, 0, PLAIN, false)) == Stepped(Cursor(3, 0, 0, inside, false), [])
            && Step(q, Cursor(3, 0, 0, inside, false)) == Stepped(Cursor(4, 0, 0, inside, false), [])
  {
  }

  lemma StringEnds(q: string)
    requires q == ":a'b' "
    ensures var inside, after := Lex(true, '\'', false, false), Lex(false, '\'', false, false);
            && Step(q, Cursor(4, 0, 0, inside, false)) == Stepped(Cursor(5, -1, 4, after, false), [Lit(""), Par(':', "a'b")])
            && Step(q, Cursor(5, -1, 4, after, false)) == Stepped(Cursor(6, -1, 6, after, false), [Lit("' ")])
  {
    assert q[0..0] == "" && q[1..4] == "a'b" && q[4..] == "' ";
  }

  /** A comment whose end an asterisk follows goes on: the reference behind it is not found, and the
      text is lost. */
  lemma CommentReopened()
    ensures Scan("/**/*:a", START) == Lexed([], 0)
  {
    var q := "/**/*:a";
    hide Scan;
    BlockCommentRun(q, START, 3);
    var b := Cursor(5, -1, 0, PLAIN.(block := true), false);
    BlockTail(q, b);
  }

  /** With a space in between it is found. */
  lemma CommentClosed()
    ensures Scan("/**/ *:a", START) == Lexed([Lit("/**/ *"), Par(':', "a"), Lit("")], 8)
  {
    hide Scan, NameChar;
    var r1 := [Ref(':', "a")];
    var r2 := [Code(" *")] + r1;
    var r3 := [BlockComment("")] + r2;
    assert r1[1..] == [] && r2[1..] == r1 && r3[1..] == r2;
    assert Template(r1) == ":a";
    assert Template(r2) == " *:a";
    assert Template(r3) == "/**/ *:a";
    ClosedFormed(r1, r2, r3);
    hide WellFormed, Template, Expected;
    ReferencesFound(r3);
    ClosedPieces(r1, r2, r3);
  }

  lemma ClosedFormed(r1: seq<Segment>, r2: seq<Segment>, r3: seq<Segment>)
    requires r1 == [Ref(':', "a")] && r2 == [Code(" *")] + r1 && r3 == [BlockComment("")] + r2
    ensures WellFormed(r3)
  {
    hide NameChar;
    NameCharIs('a');
    NameCharIs(' ');
    assert r1[1..] == [] && r2[1..] == r1 && r3[1..] == r2;
    assert WellFormed([]);
    assert WellFormed(r1);
    assert WellFormed(r2);
  }

  lemma ClosedPieces(r1: seq<Segment>, r2: seq<Segment>, r3: seq<Segment>)
    requires r1 == [Ref(':', "a")] && r2 == [Code(" *")] + r1 && r3 == [BlockComment("")] + r2
    ensures Expected("", r3) == [Lit("/**/ *"), Par(':', "a"), Lit("")]
  {
    assert r1[1..] == [] && r2[1..] == r1 && r3[1..] == r2;
    assert Expected("/**/ *", r1) == [Lit("/**/ *"), Par(':', "a")] + [Lit("")];
    assert "/**/" + " *" == "/**/ *" && "" + Written(BlockComment("")) == "/**/";
    assert Expected("/**/", r2) == Expected("/**/ *", r1);
  }

  lemma BlockTail(q: string, b: Cursor)
    requires q == "/**/*:a" && b == Cursor(5, -1, 0, PLAIN.(block := true), false)
    ensures Scan(q, b) == Lexed([], 0)
  {
    var b1, b2 := b.(i := 6), b.(i := 7);
    assert Step(q, b) == Stepped(b1, []) && Step(q, b1) == Stepped(b2, []);
    assert Scan(q, b2) == Lexed([], 0);
    assert Scan(q, b1) == Lexed([], 0);
  }
}
