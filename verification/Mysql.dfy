/** The MySQL driver's second rewriting of a translated query: $1, $2, ... become question marks
    (framework/database/mysql.c). */
module Mysql {
  import Ascii
  import opened Common
  import opened Decimals
  import opened Sequences
  import opened SqlTemplate
  import opened SqlTemplateLaws

  const NO_QUOTE := '\0'

  predicate Opens(c: char)
  {
    c == '\'' || c == '"' || c == '`'
  }

  function DigitRun(s: string): (n: nat)
    ensures n <= |s|
  {
    if s != "" && IsDigit(s[0]) then 1 + DigitRun(s[1..]) else 0
  }

  datatype Rewritten = Rewritten(out: string, count: nat, quote: char)

  function Put(out: string, count: nat, r: Rewritten): Rewritten
  {
    Rewritten(out + r.out, count + r.count, r.quote)
  }

  /** The text rewritten when it starts inside the given quote, or outside of quotes. */
  function Rewrite(s: string, quote: char): (r: Rewritten)
    decreases |s|
  {
    if s == "" then Rewritten("", 0, quote)
    else if quote != NO_QUOTE then Put([s[0]], 0, Rewrite(s[1..], if s[0] == quote then NO_QUOTE else quote))
    else if Opens(s[0]) then Put([s[0]], 0, Rewrite(s[1..], s[0]))
    else if s[0] == '$' && DigitRun(s[1..]) > 0 then Put("?", 1, Rewrite(s[1 + DigitRun(s[1..])..], NO_QUOTE))
    else Put([s[0]], 0, Rewrite(s[1..], NO_QUOTE))
  }

  lemma PutPut(a: string, m: nat, b: string, n: nat, r: Rewritten)
    ensures Put(a, m, Put(b, n, r)) == Put(a + b, m + n, r)
  {
    Assoc(a, b, r.out);
  }

  lemma DropOne(s: string, i: nat)
    requires i < |s|
    ensures s[i..] != "" && s[i..][0] == s[i] && s[i..][1..] == s[i + 1..]
  {
  }

  /** __pg_placeholders_to_mysql. */
  method PlaceholdersToMysql(sql: string) returns (out: string, count: nat)
    ensures out == Rewrite(sql, NO_QUOTE).out && count == Rewrite(sql, NO_QUOTE).count
  {
    hide Put, Opens, DigitRun;
    out, count := "", 0;
    var quote, i := NO_QUOTE, 0;
    assert sql[0..] == sql;
    PutNothing(Rewrite(sql, NO_QUOTE));
    while i < |sql|
      invariant i <= |sql| && Rewrite(sql, NO_QUOTE) == Put(out, count, Rewrite(sql[i..], quote))
    {
      var c := sql[i];
      DropOne(sql, i);
      if quote != NO_QUOTE {
        PutPut(out, count, [c], 0, Rewrite(sql[i + 1..], if c == quote then NO_QUOTE else quote));
        out := out + [c];
        if c == quote {
          quote := NO_QUOTE;
        }
        i := i + 1;
      } else if Opens(c) {
        PutPut(out, count, [c], 0, Rewrite(sql[i + 1..], c));
        quote := c;
        out := out + [c];
        i := i + 1;
      } else if c == '$' && i + 1 < |sql| && IsDigit(sql[i + 1]) {
        var j := DigitsFrom(sql, i + 1);
        PutPut(out, count, "?", 1, Rewrite(sql[j..], NO_QUOTE));
        out, count := out + "?", count + 1;
        i := j;
      } else {
        if c == '$' {
          NoRun(sql, i + 1);
        }
        PutPut(out, count, [c], 0, Rewrite(sql[i + 1..], NO_QUOTE));
        out := out + [c];
        i := i + 1;
      }
    }
    assert sql[|sql|..] == "";
    PutEnd(out, count, quote);
  }

  lemma PutNothing(r: Rewritten)
    ensures Put("", 0, r) == r
  {
  }

  lemma PutEnd(out: string, count: nat, quote: char)
    ensures Put(out, count, Rewritten("", 0, quote)) == Rewritten(out, count, quote)
  {
    assert out + "" == out;
  }

  lemma NoRun(sql: string, i: nat)
    requires i <= |sql| && (i < |sql| ==> !IsDigit(sql[i]))
    ensures DigitRun(sql[i..]) == 0
  {
  }

  /** Past the digits that start at i. */
  method DigitsFrom(sql: string, i: nat) returns (j: nat)
    requires i < |sql| && IsDigit(sql[i])
    ensures i < j <= |sql| && DigitRun(sql[i..]) == j - i && sql[i..][j - i..] == sql[j..]
  {
    j := i;
    assert sql[j..] == sql[i..];
    while j < |sql| && IsDigit(sql[j])
      invariant i <= j <= |sql| && (j == i ==> IsDigit(sql[i]))
      invariant DigitRun(sql[i..]) == j - i + DigitRun(sql[j..])
    {
      DropOne(sql, j);
      j := j + 1;
    }
    NoRun(sql, j);
    DropMore(sql, i, j);
  }

  // ----- what it does to a translated query

  /** Rewriting goes through a cut where no digit follows. */
  lemma {:induction false} RewriteMore(a: string, b: string, quote: char)
    requires b == "" || !IsDigit(b[0])
    ensures var r := Rewrite(a, quote); Rewrite(a + b, quote) == Put(r.out, r.count, Rewrite(b, r.quote))
    decreases |a|
  {
    hide Put, Opens;
    if a == "" {
      assert a + b == b;
      PutNothing(Rewrite(b, quote));
    } else {
      assert (a + b)[0] == a[0] && (a + b)[1..] == a[1..] + b;
      if quote == NO_QUOTE && !Opens(a[0]) && a[0] == '$' {
        RunMore(a[1..], b);
      }
      if quote == NO_QUOTE && !Opens(a[0]) && a[0] == '$' && DigitRun(a[1..]) > 0 {
        var n := 1 + DigitRun(a[1..]);
        assert (a + b)[n..] == a[n..] + b;
        RewriteMore(a[n..], b, NO_QUOTE);
        var r := Rewrite(a[n..], NO_QUOTE);
        PutPut("?", 1, r.out, r.count, Rewrite(b, r.quote));
        PutIs("?", 1, r);
      } else {
        var quote' := if quote != NO_QUOTE then if a[0] == quote then NO_QUOTE else quote else if Opens(a[0]) then a[0] else NO_QUOTE;
        RewriteMore(a[1..], b, quote');
        var r := Rewrite(a[1..], quote');
        PutPut([a[0]], 0, r.out, r.count, Rewrite(b, r.quote));
        PutIs([a[0]], 0, r);
      }
    }
  }

  lemma PutIs(out: string, count: nat, r: Rewritten)
    ensures var p := Put(out, count, r); p.out == out + r.out && p.count == count + r.count && p.quote == r.quote
  {
  }

  lemma {:induction false} RunMore(a: string, b: string)
    requires b == "" || !IsDigit(b[0])
    ensures DigitRun(a + b) == DigitRun(a)
  {
    if a == "" {
      assert a + b == b;
    } else {
      assert (a + b)[1..] == a[1..] + b;
      RunMore(a[1..], b);
    }
  }

  /** Rewriting either leaves the text alone, or its first question mark stands for a dollar sign. */
  lemma {:induction false} Unmarked(s: string, quote: char) returns (p: nat)
    ensures var r := Rewrite(s, quote);
            if r.count == 0 then r.out == s else p < |s| && p < |r.out| && r.out[p] != s[p]
    decreases |s|
  {
    p := 0;
    if s != "" {
      if quote == NO_QUOTE && !Opens(s[0]) && s[0] == '$' && DigitRun(s[1..]) > 0 {
      } else {
        var quote' := if quote != NO_QUOTE then if s[0] == quote then NO_QUOTE else quote else if Opens(s[0]) then s[0] else NO_QUOTE;
        p := Unmarked(s[1..], quote');
        assert s == [s[0]] + s[1..];
        p := p + 1;
      }
    }
  }

  /** The query the driver should send: a question mark at each placeholder. */
  ghost function MarkedOne(o: Out): string
  {
    match o
    case Text(s) => s
    case Hole(_, suffix) => "?" + suffix
  }

  ghost function Marked(outs: seq<Out>): string
  {
    if outs == [] then "" else MarkedOne(outs[0]) + Marked(outs[1..])
  }

  /** The quote a character leaves the text in. */
  ghost function QuoteStep(quote: char, c: char): char
  {
    if quote != NO_QUOTE then (if c == quote then NO_QUOTE else quote) else if Opens(c) then c else NO_QUOTE
  }

  ghost function QuoteRun(s: string, quote: char): char
    decreases |s|
  {
    if s == "" then quote else QuoteRun(s[1..], QuoteStep(quote, s[0]))
  }

  lemma {:induction false} QuoteRunMore(a: string, b: string, quote: char)
    ensures QuoteRun(a + b, quote) == QuoteRun(b, QuoteRun(a, quote))
    decreases |a|
  {
    if a == "" {
      assert a + b == b;
    } else {
      assert (a + b)[0] == a[0] && (a + b)[1..] == a[1..] + b;
      QuoteRunMore(a[1..], b, QuoteStep(quote, a[0]));
    }
  }

  /** A dollar sign and a digit stand at i. */
  ghost predicate DollarDigit(s: string, i: int)
  {
    0 <= i < |s| - 1 && s[i] == '$' && IsDigit(s[i + 1])
  }

  /** Every dollar sign before a digit is inside quotes. */
  ghost predicate MarksQuoted(s: string, quote: char)
  {
    forall i :: DollarDigit(s, i) ==> QuoteRun(s[..i], quote) != NO_QUOTE
  }

  lemma MarksQuotedTail(s: string, quote: char)
    requires s != ""
    ensures MarksQuoted(s, quote) <==>
              !(DollarDigit(s, 0) && quote == NO_QUOTE) && MarksQuoted(s[1..], QuoteStep(quote, s[0]))
  {
    var tl, q1 := s[1..], QuoteStep(quote, s[0]);
    forall i | 0 < i < |s|
      ensures QuoteRun(s[..i], quote) == QuoteRun(tl[..i - 1], q1) && (DollarDigit(s, i) <==> DollarDigit(tl, i - 1))
    {
      assert s[..i][1..] == tl[..i - 1] && s[..i][0] == s[0];
    }
    assert s[..0] == "" && QuoteRun("", quote) == quote;
    if MarksQuoted(s, quote) {
      forall i | DollarDigit(tl, i)
        ensures QuoteRun(tl[..i], q1) != NO_QUOTE
      {
        assert DollarDigit(s, i + 1);
      }
    }
  }

  /** The text is left alone exactly when its dollar signs before digits are inside quotes. */
  lemma {:induction false} UnmarkedWhen(s: string, quote: char)
    ensures Rewrite(s, quote).count == 0 <==> MarksQuoted(s, quote)
    ensures MarksQuoted(s, quote) ==> Rewrite(s, quote).quote == QuoteRun(s, quote)
    decreases |s|
  {
    if s != "" {
      MarksQuotedTail(s, quote);
      UnmarkedWhen(s[1..], QuoteStep(quote, s[0]));
      assert s[0] == '$' ==> (DigitRun(s[1..]) > 0 <==> DollarDigit(s, 0));
    }
  }

  ghost predicate NoDigitFirst(s: string)
  {
    s == "" || !IsDigit(s[0])
  }

  /** The condition, on the query as the translator put it together: outside of quotes a dollar sign
      and a digit stand at the placeholders only, every placeholder is outside of quotes, and no
      digit follows its number. The text acc, read from the given quote on, is what precedes. */
  ghost predicate Calm(outs: seq<Out>, acc: string, quote: char)
    decreases |outs|
  {
    if outs == [] then MarksQuoted(acc, quote)
    else
      match outs[0]
      case Text(s) => Calm(outs[1..], acc + s, quote)
      case Hole(_, suffix) =>
        && MarksQuoted(acc, quote) && QuoteRun(acc, quote) == NO_QUOTE
        && NoDigitFirst(suffix + Flat(outs[1..])) && Calm(outs[1..], suffix, NO_QUOTE)
  }

  /** A digit after the number of a placeholder comes from literal text. */
  lemma {:induction false} FirstDigit(outs: seq<Out>, acc: string)
    requires !NoDigitFirst(acc + Flat(outs))
    ensures acc + Marked(outs) != "" && (acc + Marked(outs))[0] == (acc + Flat(outs))[0]
    decreases |outs|
  {
    if acc != "" {
      assert (acc + Flat(outs))[0] == acc[0];
    } else {
      assert acc + Flat(outs) == Flat(outs) && acc + Marked(outs) == Marked(outs);
      assert outs != [];
      FirstOut(outs);
      if outs[0].Text? {
        FirstDigit(outs[1..], outs[0].s);
      }
    }
  }

  lemma FirstOut(outs: seq<Out>)
    requires outs != []
    ensures Flat(outs) == OutText(outs[0]) + Flat(outs[1..]) && Marked(outs) == MarkedOne(outs[0]) + Marked(outs[1..])
    ensures outs[0].Hole? ==> Flat(outs)[0] == '$'
  {
  }

  /** Rewriting puts no digit in front. */
  lemma FirstRewritten(s: string, quote: char)
    requires NoDigitFirst(s)
    ensures NoDigitFirst(Rewrite(s, quote).out)
  {
  }

  lemma {:induction false} SwallowedDigits(d: string, x: string)
    requires forall i :: 0 <= i < |d| ==> IsDigit(d[i])
    ensures DigitRun(d + x) == |d| + DigitRun(x) && (d + x)[|d| + DigitRun(x)..] == x[DigitRun(x)..]
  {
    if d == "" {
      assert d + x == x;
    } else {
      assert (d + x)[1..] == d[1..] + x;
      SwallowedDigits(d[1..], x);
      DropMore(d + x, 1, |d| + DigitRun(x));
    }
  }

  lemma {:induction false} AfterRun(x: string)
    ensures NoDigitFirst(x[DigitRun(x)..])
  {
    if x != "" && IsDigit(x[0]) {
      AfterRun(x[1..]);
      DropMore(x, 1, DigitRun(x));
    }
  }

  lemma DollarStep(s: string, n: nat)
    requires s != "" && s[0] == '$' && DigitRun(s[1..]) == n > 0
    ensures 1 + n <= |s| && Rewrite(s, NO_QUOTE) == Put("?", 1, Rewrite(s[1 + n..], NO_QUOTE))
  {
    hide Put;
  }

  /** The rewriting of a placeholder and what follows it, outside of quotes. */
  lemma NumberRewrites(k: nat, x: string)
    ensures Rewrite("$" + Digits(k) + x, NO_QUOTE) == Put("?", 1, Rewrite(x[DigitRun(x)..], NO_QUOTE))
  {
    hide Digits, Put, Rewrite, DigitRun;
    var d := Digits(k);
    SwallowedDigits(d, x);
    var n := |d| + DigitRun(x);
    Assoc("$", d, x);
    var s := "$" + (d + x);
    DropPrefix("$", d + x);
    DollarStep(s, n);
    DropMore(s, 1, 1 + n);
  }

  /** The driver sends a question mark at each placeholder, and changes nothing else, exactly when
      the query is calm; then there are as many question marks as placeholders. */
  lemma {:induction false} MarksFrom(outs: seq<Out>, acc: string, quote: char)
    ensures Rewrite(acc + Flat(outs), quote).out == acc + Marked(outs) <==> Calm(outs, acc, quote)
    ensures Calm(outs, acc, quote) ==> Rewrite(acc + Flat(outs), quote).count == |Numbers(outs)|
    decreases |outs|
  {
    hide Rewrite, OutText, MarkedOne, MarksQuoted, QuoteRun, NoDigitFirst;
    if outs == [] {
      assert acc + Flat(outs) == acc && acc + Marked(outs) == acc;
      UnmarkedWhen(acc, quote);
      var p := Unmarked(acc, quote);
    } else {
      FirstOut(outs);
      FirstNumbers(outs);
      match outs[0]
      case Text(s) =>
        Assoc(acc, s, Flat(outs[1..]));
        Assoc(acc, s, Marked(outs[1..]));
        MarksFrom(outs[1..], acc + s, quote);
      case Hole(k, suffix) =>
        HoleMatch(outs, acc, quote);
    }
  }

  lemma FirstNumbers(outs: seq<Out>)
    requires outs != []
    ensures outs[0].Text? ==> OutText(outs[0]) == MarkedOne(outs[0]) == outs[0].s && |Numbers(outs)| == |Numbers(outs[1..])|
    ensures outs[0].Hole? ==> |Numbers(outs)| == 1 + |Numbers(outs[1..])|
    ensures outs[0].Hole? ==>
              OutText(outs[0]) == "$" + Digits(outs[0].k) + outs[0].suffix && MarkedOne(outs[0]) == "?" + outs[0].suffix
  {
  }

  lemma {:induction false} HoleMatch(outs: seq<Out>, acc: string, quote: char)
    requires outs != [] && outs[0].Hole?
    ensures Rewrite(acc + Flat(outs), quote).out == acc + Marked(outs) <==> Calm(outs, acc, quote)
    ensures Calm(outs, acc, quote) ==> Rewrite(acc + Flat(outs), quote).count == |Numbers(outs)|
    decreases |outs|, 0
  {
    hide Rewrite, OutText, MarkedOne, MarksQuoted, QuoteRun, Flat, Marked, Numbers;
    var k, suffix, rest := outs[0].k, outs[0].suffix, outs[1..];
    var x, y := suffix + Flat(rest), suffix + Marked(rest);
    FirstOut(outs);
    FirstNumbers(outs);
    Assoc("$" + Digits(k), suffix, Flat(rest));
    Assoc("?", suffix, Marked(rest));
    var t := "$" + Digits(k) + x;
    assert Flat(outs) == t && Marked(outs) == "?" + y;
    StartsDollar(Digits(k), x);
    RewriteMore(acc, t, quote);
    UnmarkedWhen(acc, quote);
    var p := Unmarked(acc, quote);
    var r := Rewrite(acc, quote);
    PutIs(r.out, r.count, Rewrite(t, r.quote));
    if r.count > 0 {
      Differ(r.out, Rewrite(t, r.quote).out, acc, Marked(outs), p);
    } else {
      SamePrefix(acc, Rewrite(t, r.quote).out, Marked(outs));
      if r.quote != NO_QUOTE {
        QuotedFirst(t, r.quote);
        assert Marked(outs)[0] == '?';
      } else {
        NumberRewrites(k, x);
        PutIs("?", 1, Rewrite(x[DigitRun(x)..], NO_QUOTE));
        SamePrefix("?", Rewrite(x[DigitRun(x)..], NO_QUOTE).out, y);
        if NoDigitFirst(x) {
          NoRunFirst(x);
          MarksFrom(rest, suffix, NO_QUOTE);
        } else {
          FirstDigit(rest, suffix);
          AfterRun(x);
          FirstRewritten(x[DigitRun(x)..], NO_QUOTE);
        }
      }
    }
  }

  lemma StartsDollar(d: string, x: string)
    ensures ("$" + d + x)[0] == '$'
  {
  }

  lemma NoRunFirst(x: string)
    requires NoDigitFirst(x)
    ensures DigitRun(x) == 0 && x[DigitRun(x)..] == x
  {
  }

  lemma QuotedFirst(t: string, quote: char)
    requires t != "" && quote != NO_QUOTE
    ensures Rewrite(t, quote).out != "" && Rewrite(t, quote).out[0] == t[0]
  {
  }

  /** The exact condition for a whole query. */
  lemma MarksMatch(outs: seq<Out>)
    ensures Rewrite(Flat(outs), NO_QUOTE).out == Marked(outs) <==> Calm(outs, "", NO_QUOTE)
    ensures Calm(outs, "", NO_QUOTE) ==> Rewrite(Flat(outs), NO_QUOTE).count == |Numbers(outs)|
  {
    hide Rewrite, Calm;
    MarksFrom(outs, "", NO_QUOTE);
    assert "" + Flat(outs) == Flat(outs) && "" + Marked(outs) == Marked(outs);
  }

  lemma SamePrefix(a: string, b: string, c: string)
    ensures a + b == a + c <==> b == c
  {
    assert (a + b)[|a|..] == b && (a + c)[|a|..] == c;
  }

  lemma Differ(a: string, b: string, c: string, d: string, p: nat)
    requires p < |a| && p < |c| && a[p] != c[p]
    ensures a + b != c + d
  {
    assert (a + b)[p] != (c + d)[p];
  }

  /** What opens a quote, and what a number is written with. */
  lemma Marks(c: char)
    ensures Opens(c) <==> c in "'\"`"
    ensures IsDigit(c) <==> c in Ascii.DIGITS
  {
    Ascii.DigitIs(c);
  }
}
