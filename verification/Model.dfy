/** Records with change tracking, and the UPDATE statement built from them
    (framework/model/model.c). */
module Model {
  import opened Common
  import opened Decimals

  /** The content of a column that is not null. */
  datatype Value = Int(n: int) | Text(s: string)

  datatype Cell = Null | Val(v: Value)

  /** A number and a string, as in the source: text fields live in the string, and for number
      fields the string is only a formatting buffer. */
  datatype MValue = MValue(number: int, text: string)

  datatype Field = Field(name: string, isText: bool, value: MValue, oldvalue: MValue, dirty: bool, isNull: bool, raw: bool)

  function Content(f: Field, v: MValue): Value
  {
    if f.isText then Text(v.text) else Int(v.number)
  }

  /** What the record says a column holds. */
  function Current(f: Field): Cell
  {
    if f.isNull then Null else Val(Content(f, f.value))
  }

  type Row = seq<Cell>

  /** A clean field equals the stored cell; the old value of a dirty one equals it, null apart. */
  ghost predicate Tracks(f: Field, stored: Cell)
  {
    && (f.raw ==> f.isNull)
    && (stored.Val? ==> (stored.v.Text? <==> f.isText))
    && (!f.dirty ==> stored == Current(f))
    && (f.dirty && stored.Val? ==> stored.v == Content(f, f.oldvalue))
  }

  ghost predicate Mirrors(fields: seq<Field>, row: Row)
  {
    |fields| == |row| && forall i :: 0 <= i < |fields| ==> Tracks(fields[i], row[i])
  }

  // ----- statements

  datatype Operand = Inline(text: string) | Placeholder(k: nat)

  datatype Term = Term(column: nat, operand: Operand)

  datatype Statement = Statement(sets: seq<Term>, wheres: seq<Term>, binds: seq<Value>)

  /** The operands whose value SQL gives: the word NULL, and placeholders of bound values. */
  ghost predicate Known(o: Operand, binds: seq<Value>)
  {
    match o
    case Inline(text) => text == "NULL"
    case Placeholder(k) => 1 <= k <= |binds|
  }

  /** NULL is null, and placeholder $k stands for the k-th bound value. */
  ghost function Eval(o: Operand, binds: seq<Value>): Cell
    requires Known(o, binds)
  {
    match o
    case Inline(_) => Null
    case Placeholder(k) => Val(binds[k - 1])
  }

  ghost predicate AllKnown(terms: seq<Term>, binds: seq<Value>)
  {
    forall t :: t in terms ==> Known(t.operand, binds)
  }

  ghost predicate Understood(s: Statement)
  {
    AllKnown(s.sets, s.binds) && AllKnown(s.wheres, s.binds)
  }

  /** A comparison with null is never true. */
  ghost predicate Matches(row: Row, wheres: seq<Term>, binds: seq<Value>)
    requires AllKnown(wheres, binds)
  {
    forall t :: t in wheres ==> t.column < |row| && row[t.column].Val? && row[t.column] == Eval(t.operand, binds)
  }

  ghost function Assigned(row: Row, sets: seq<Term>, binds: seq<Value>): Row
    requires AllKnown(sets, binds)
  {
    if sets == [] then row
    else
      var r := Assigned(row, sets[..|sets| - 1], binds);
      var t := sets[|sets| - 1];
      if t.column < |r| then r[t.column := Eval(t.operand, binds)] else r
  }

  /** The rows after the statement: those that match are assigned to, the others stay. */
  ghost function Executed(rows: seq<Row>, s: Statement): seq<Row>
    requires Understood(s)
  {
    if rows == [] then []
    else [if Matches(rows[0], s.wheres, s.binds) then Assigned(rows[0], s.sets, s.binds) else rows[0]] + Executed(rows[1..], s)
  }

  ghost predicate SameKey(a: Row, b: Row, primary: seq<bool>)
  {
    forall i :: 0 <= i < |primary| && primary[i] && i < |a| && i < |b| ==> a[i] == b[i]
  }

  /** Rows of one width, with key columns that are not null and differ between rows. */
  ghost predicate Keyed(rows: seq<Row>, primary: seq<bool>)
  {
    && (forall r :: 0 <= r < |rows| ==> |rows[r]| == |primary|)
    && (forall r, i :: 0 <= r < |rows| && 0 <= i < |primary| && primary[i] ==> rows[r][i].Val?)
    && (forall r, s :: 0 <= r < s < |rows| ==> !SameKey(rows[r], rows[s], primary))
  }

  lemma {:induction false} ExecutedAt(rows: seq<Row>, s: Statement, r: nat)
    requires r < |rows| && Understood(s)
    ensures |Executed(rows, s)| == |rows|
    ensures Executed(rows, s)[r] == if Matches(rows[r], s.wheres, s.binds) then Assigned(rows[r], s.sets, s.binds) else rows[r]
  {
    if |rows| > 1 {
      ExecutedAt(rows[1..], s, if r > 0 then r - 1 else 0);
    }
  }

  // ----- what the builder writes

  function Operation(f: Field, n: nat): Operand
  {
    if f.isNull then Inline("NULL") else Placeholder(n + 1)
  }

  function Bound(f: Field): seq<Value>
  {
    if f.isNull then [] else [Content(f, f.value)]
  }

  datatype Clause = Clause(terms: seq<Term>, binds: seq<Value>)

  /** The clause of the flagged columns below i, all giving their fields, after n bound values. */
  ghost function ClauseOf(all: seq<Field>, flags: seq<bool>, i: nat, n: nat): Clause
    requires i <= |all| == |flags|
  {
    if i == 0 then Clause([], [])
    else
      var c := ClauseOf(all, flags, i - 1, n);
      if flags[i - 1]
      then Clause(c.terms + [Term(i - 1, Operation(all[i - 1], n + |c.binds|))], c.binds + Bound(all[i - 1]))
      else c
  }

  ghost predicate Stands(binds: seq<Value>, n: nat, part: seq<Value>)
  {
    n + |part| <= |binds| && binds[n..n + |part|] == part
  }

  lemma StandsFirst(binds: seq<Value>, n: nat, a: seq<Value>, b: seq<Value>)
    requires Stands(binds, n, a + b)
    ensures Stands(binds, n, a) && Stands(binds, n + |a|, b)
  {
    assert binds[n..n + |a|] == binds[n..n + |a + b|][..|a|];
    assert binds[n + |a|..n + |a| + |b|] == binds[n..n + |a + b|][|a|..];
  }

  /** An operand evaluates to what its field says, given that its value is bound in its place. */
  lemma OperationEval(f: Field, n: nat, binds: seq<Value>)
    requires Stands(binds, n, Bound(f))
    ensures Known(Operation(f, n), binds) && Eval(Operation(f, n), binds) == Current(f)
  {
    if !f.isNull {
      assert binds[n..n + 1][0] == Content(f, f.value);
    }
  }

  /** A clause has one term for each flagged column, and it means what the field says. */
  lemma {:induction false} ClauseMeans(all: seq<Field>, flags: seq<bool>, i: nat, n: nat, binds: seq<Value>)
    requires i <= |all| == |flags| && Stands(binds, n, ClauseOf(all, flags, i, n).binds)
    ensures var terms := ClauseOf(all, flags, i, n).terms;
            && AllKnown(terms, binds)
            && (forall t :: t in terms ==> t.column < i && flags[t.column] && Eval(t.operand, binds) == Current(all[t.column]))
            && (forall c :: 0 <= c < i && flags[c] ==> exists t :: t in terms && t.column == c)
  {
    hide Eval, Known, Operation, Bound, Stands, Current;
    if i > 0 {
      var c, c' := ClauseOf(all, flags, i, n), ClauseOf(all, flags, i - 1, n);
      if flags[i - 1] {
        StandsFirst(binds, n, c'.binds, Bound(all[i - 1]));
        OperationEval(all[i - 1], n + |c'.binds|, binds);
        assert c.terms[|c'.terms|] in c.terms;
      }
      ClauseMeans(all, flags, i - 1, n, binds);
      assert forall t :: t in c'.terms ==> t in c.terms;
    }
  }

  /** A SET clause assigns to each flagged column what its field says, and to no other. */
  lemma {:induction false} AssignedAt(row: Row, all: seq<Field>, flags: seq<bool>, i: nat, n: nat, binds: seq<Value>, j: nat)
    requires i <= |all| == |flags| == |row| && j < |row| && Stands(binds, n, ClauseOf(all, flags, i, n).binds)
    ensures AllKnown(ClauseOf(all, flags, i, n).terms, binds)
    ensures var r := Assigned(row, ClauseOf(all, flags, i, n).terms, binds);
            |r| == |row| && r[j] == if j < i && flags[j] then Current(all[j]) else row[j]
  {
    hide Eval, Known, Operation, Bound, Stands, Current;
    ClauseMeans(all, flags, i, n, binds);
    if i > 0 {
      var c, c' := ClauseOf(all, flags, i, n), ClauseOf(all, flags, i - 1, n);
      if flags[i - 1] {
        StandsFirst(binds, n, c'.binds, Bound(all[i - 1]));
        OperationEval(all[i - 1], n + |c'.binds|, binds);
        assert c.terms[..|c.terms| - 1] == c'.terms;
      }
      AssignedAt(row, all, flags, i - 1, n, binds, j);
    }
  }

  ghost function DirtyFlags(fields: seq<Field>): seq<bool>
  {
    seq(|fields|, i requires 0 <= i < |fields| => fields[i].dirty)
  }

  /** __model_bind_clone on the old value. */
  function Clone(f: Field): Field
  {
    f.(value := f.oldvalue, isNull := false, raw := false, dirty := false)
  }

  /** What the row is located by: the old value of a changed key column. */
  function KeyField(f: Field): Field
  {
    if f.dirty then Clone(f) else f
  }

  ghost function KeyFields(fields: seq<Field>): seq<Field>
  {
    seq(|fields|, i requires 0 <= i < |fields| => KeyField(fields[i]))
  }

  /** The UPDATE statement of a record: changed fields are set, and the row is found by its key;
      the placeholders of WHERE are numbered after those of SET. */
  ghost function UpdateStatement(fields: seq<Field>, primary: seq<bool>): Statement
    requires |fields| == |primary|
  {
    var sets := ClauseOf(fields, DirtyFlags(fields), |fields|, 0);
    var wheres := ClauseOf(KeyFields(fields), primary, |fields|, |sets.binds|);
    Statement(sets.terms, wheres.terms, sets.binds + wheres.binds)
  }

  // ----- executing it

  ghost function CurrentRow(fields: seq<Field>): Row
  {
    seq(|fields|, i requires 0 <= i < |fields| => Current(fields[i]))
  }

  lemma BindsApart(a: seq<Value>, b: seq<Value>)
    ensures Stands(a + b, 0, a) && Stands(a + b, |a|, b)
  {
  }

  /** The statement finds the row of the record, by the key it is stored under, and no other. */
  lemma FindsRow(fields: seq<Field>, primary: seq<bool>, rows: seq<Row>, at: nat, r: nat)
    requires |fields| == |primary| && at < |rows| && r < |rows| && Keyed(rows, primary) && Mirrors(fields, rows[at])
    ensures var s := UpdateStatement(fields, primary);
            AllKnown(s.wheres, s.binds) && (Matches(rows[r], s.wheres, s.binds) <==> r == at)
  {
    hide Eval, Known, ClauseOf;
    var s := UpdateStatement(fields, primary);
    var sets := ClauseOf(fields, DirtyFlags(fields), |fields|, 0);
    var wheres := ClauseOf(KeyFields(fields), primary, |fields|, |sets.binds|);
    BindsApart(sets.binds, wheres.binds);
    ClauseMeans(KeyFields(fields), primary, |fields|, |sets.binds|, s.binds);
    forall i | 0 <= i < |primary| && primary[i]
      ensures Current(KeyFields(fields)[i]) == rows[at][i]
    {
      assert Tracks(fields[i], rows[at][i]) && rows[at][i].Val?;
    }
    if r != at {
      assert !SameKey(rows[r], rows[at], primary) by {
        assert r < at ==> !SameKey(rows[r], rows[at], primary);
        assert at < r ==> !SameKey(rows[at], rows[r], primary);
      }
      var i :| 0 <= i < |primary| && primary[i] && rows[r][i] != rows[at][i];
      var t :| t in s.wheres && t.column == i;
    }
  }

  /** Every operand of the statement has a value: NULL, where and only where a field set is null, or
      a bound value. */
  lemma StatementKnown(fields: seq<Field>, primary: seq<bool>)
    requires |fields| == |primary|
    ensures var s := UpdateStatement(fields, primary);
            Understood(s) && SetsSay(fields, s)
  {
    hide ClauseOf;
    var s := UpdateStatement(fields, primary);
    var sets := ClauseOf(fields, DirtyFlags(fields), |fields|, 0);
    var wheres := ClauseOf(KeyFields(fields), primary, |fields|, |sets.binds|);
    BindsApart(sets.binds, wheres.binds);
    ClauseMeans(fields, DirtyFlags(fields), |fields|, 0, s.binds);
    ClauseMeans(KeyFields(fields), primary, |fields|, |sets.binds|, s.binds);
    forall t | t in s.sets
      ensures t.column < |fields| && fields[t.column].dirty
      ensures TermSays(t, Current(fields[t.column]), s.binds)
    {
      assert DirtyFlags(fields)[t.column];
    }
    forall c | 0 <= c < |fields| && fields[c].dirty
      ensures exists t :: t in s.sets && t.column == c
    {
      assert DirtyFlags(fields)[c];
    }
  }

  /** The word NULL for null, a placeholder of the value otherwise. */
  ghost predicate TermSays(t: Term, cell: Cell, binds: seq<Value>)
  {
    match cell
    case Null => t.operand == Inline("NULL")
    case Val(v) => t.operand.Placeholder? && 1 <= t.operand.k <= |binds| && binds[t.operand.k - 1] == v
  }

  /** SET names the changed columns and no other, with the word NULL at those that are now null and
      a placeholder for the new value at the others. */
  ghost predicate SetsSay(fields: seq<Field>, s: Statement)
  {
    && (forall t :: t in s.sets ==> t.column < |fields| && fields[t.column].dirty)
    && (forall c :: 0 <= c < |fields| && fields[c].dirty ==> exists t :: t in s.sets && t.column == c)
    && (forall t :: t in s.sets && t.column < |fields| ==> TermSays(t, Current(fields[t.column]), s.binds))
  }

  /** Executed, it makes the row equal to the record and leaves every other row alone. */
  lemma UpdateReaches(fields: seq<Field>, primary: seq<bool>, rows: seq<Row>, at: nat)
    requires |fields| == |primary| && at < |rows| && Keyed(rows, primary) && Mirrors(fields, rows[at])
    ensures Understood(UpdateStatement(fields, primary))
    ensures Executed(rows, UpdateStatement(fields, primary)) == rows[at := CurrentRow(fields)]
  {
    hide Matches, Keyed, Executed, Eval, Known, Assigned, ClauseOf;
    var s := UpdateStatement(fields, primary);
    StatementKnown(fields, primary);
    var sets := ClauseOf(fields, DirtyFlags(fields), |fields|, 0);
    BindsApart(sets.binds, ClauseOf(KeyFields(fields), primary, |fields|, |sets.binds|).binds);
    var row := Assigned(rows[at], s.sets, s.binds);
    AssignedLength(rows[at], s.sets, s.binds);
    forall i | 0 <= i < |fields|
      ensures row[i] == Current(fields[i])
    {
      AssignedAt(rows[at], fields, DirtyFlags(fields), |fields|, 0, s.binds, i);
      assert Tracks(fields[i], rows[at][i]);
    }
    assert row == CurrentRow(fields);
    ExecutedAt(rows, s, at);
    forall r | 0 <= r < |rows|
      ensures Executed(rows, s)[r] == rows[at := CurrentRow(fields)][r]
    {
      FindsRow(fields, primary, rows, at, r);
      ExecutedAt(rows, s, r);
    }
  }

  lemma {:induction false} AssignedLength(row: Row, sets: seq<Term>, binds: seq<Value>)
    requires AllKnown(sets, binds)
    ensures |Assigned(row, sets, binds)| == |row|
    decreases |sets|
  {
    if sets != [] {
      AssignedLength(row, sets[..|sets| - 1], binds);
    }
  }

  // ----- the record

  function IntText(n: int): string
  {
    if n < 0 then "-" + Digits(-n) else Digits(n)
  }

  /** What model_field_to_string leaves in the field: a null one becomes a raw fragment. */
  function Stringed(f: Field): Field
  {
    if f.isNull then f.(raw := true, value := f.value.(text := "NULL"))
    else if f.isText then f
    else f.(value := f.value.(text := IntText(f.value.number)))
  }

  /** What a field is after being filled from a column of a result. */
  ghost predicate FilledFrom(f: Field, f': Field, cell: Cell)
  {
    f'.name == f.name && f'.isText == f.isText && !f'.dirty && Current(f') == cell && (f'.raw ==> f'.isNull)
  }

  /** The last column of that name in a result. */
  ghost function LastCell(names: seq<string>, row: Row, name: string): Option<Cell>
    requires |names| == |row|
  {
    if names == [] then None
    else
      var k := |names| - 1;
      if names[k] == name then Some(row[k]) else LastCell(names[..k], row[..k], name)
  }

  ghost predicate Fills(names: seq<string>, row: Row, f: Field, f': Field)
    requires |names| == |row|
  {
    match LastCell(names, row, f.name)
    case None => f' == f
    case Some(cell) => FilledFrom(f, f', cell)
  }

  ghost predicate Distinct(fields: seq<Field>)
  {
    forall i, j :: 0 <= i < j < |fields| ==> fields[i].name != fields[j].name
  }

  ghost predicate SameNames(a: seq<Field>, b: seq<Field>)
  {
    |a| == |b| && forall i :: 0 <= i < |a| ==> a[i].name == b[i].name && a[i].isText == b[i].isText
  }

  ghost predicate TypedCell(f: Field, cell: Cell)
  {
    cell.Val? ==> (cell.v.Text? <==> f.isText)
  }

  /** Every column with a field has a value of that field's type. */
  ghost predicate Typed(names: seq<string>, row: Row, fields: seq<Field>)
    requires |names| == |row|
  {
    forall c, i :: 0 <= c < |names| && 0 <= i < |fields| && names[c] == fields[i].name ==> TypedCell(fields[i], row[c])
  }

  lemma LastCellMore(names: seq<string>, row: Row, col: nat, name: string)
    requires |names| == |row| && col < |names|
    ensures LastCell(names[..col + 1], row[..col + 1], name)
         == if names[col] == name then Some(row[col]) else LastCell(names[..col], row[..col], name)
  {
    assert names[..col + 1][..col] == names[..col] && row[..col + 1][..col] == row[..col];
  }

  lemma {:induction false} LastCellOwn(names: seq<string>, row: Row, i: nat)
    requires |names| == |row| && i < |names| && forall j, k :: 0 <= j < k < |names| ==> names[j] != names[k]
    ensures LastCell(names, row, names[i]) == Some(row[i])
    decreases |names|
  {
    var k := |names| - 1;
    if i < k {
      LastCellOwn(names[..k], row[..k], i);
    }
  }

  /** The fields after some of the marked ones were turned into strings. */
  ghost predicate StringedTo(before: seq<Field>, after: seq<Field>)
  {
    |after| == |before| && forall i :: 0 <= i < |before| ==> after[i] == before[i] || after[i] == Stringed(before[i])
  }

  lemma StringedSame(f: Field)
    ensures var g := Stringed(f); g.dirty == f.dirty && Clone(g) == Clone(f) && g.name == f.name && g.isText == f.isText
  {
  }

  lemma StatementIs(fields: seq<Field>, primary: seq<bool>)
    requires |fields| == |primary|
    ensures var sets := ClauseOf(fields, DirtyFlags(fields), |fields|, 0);
            var wheres := ClauseOf(KeyFields(fields), primary, |fields|, |sets.binds|);
            UpdateStatement(fields, primary) == Statement(sets.terms, wheres.terms, sets.binds + wheres.binds)
  {
  }

  lemma StringedKeeps(before: seq<Field>, after: seq<Field>)
    requires StringedTo(before, after)
    ensures CurrentRow(after) == CurrentRow(before) && DirtyFlags(after) == DirtyFlags(before) && SameNames(before, after)
    ensures forall row :: Mirrors(before, row) ==> Mirrors(after, row)
  {
    forall i | 0 <= i < |before|
      ensures Current(after[i]) == Current(before[i]) && after[i].dirty == before[i].dirty
      ensures after[i].name == before[i].name && after[i].isText == before[i].isText
      ensures forall stored :: Tracks(before[i], stored) ==> Tracks(after[i], stored)
    {
    }
  }

  /** The database takes only statements that set and look for something and leave the keys unique and not null. */
  ghost predicate Accepts(rows: seq<Row>, s: Statement, primary: seq<bool>)
  {
    s.sets != [] && s.wheres != [] && Understood(s) && Keyed(Executed(rows, s), primary)
  }

  // ----- runs

  /** A setter, or an update with the database's answer. */
  datatype Change = ChangeInt(i: nat, n: int) | ChangeText(i: nat, v: Option<string>) | Save(accepted: bool)

  /** A record as its user sees it: the row it stands for, which columns are changed, and the table
      its stored row is in. */
  datatype View = View(texts: seq<bool>, row: Row, changed: seq<bool>, rows: seq<Row>, at: nat)

  ghost predicate Viewable(s: View)
  {
    |s.row| == |s.texts| == |s.changed| && s.at < |s.rows|
  }

  ghost function Changed(s: View, c: Change): View
    requires Viewable(s)
  {
    match c
    case ChangeInt(i, n) =>
      if i < |s.row| && !s.texts[i] then s.(row := s.row[i := Val(Int(n))], changed := s.changed[i := true]) else s
    case ChangeText(i, v) =>
      if i < |s.row| && s.texts[i]
      then s.(row := s.row[i := if v.None? then Null else Val(Text(v.value))], changed := s.changed[i := true]) else s
    case Save(accepted) =>
      if accepted then s.(rows := s.rows[s.at := s.row], changed := seq(|s.changed|, _ => false)) else s
  }

  /** Fields exist, and the database accepts only when something is set and the keys stay unique and
      not null. */
  ghost predicate Possible(s: View, c: Change, primary: seq<bool>)
  {
    match c
    case ChangeInt(i, _) => i < |s.row|
    case ChangeText(i, _) => i < |s.row|
    case Save(accepted) =>
      accepted ==> s.at < |s.rows| && true in s.changed && true in primary && Keyed(s.rows[s.at := s.row], primary)
  }

  ghost function ChangedAll(s: View, cs: seq<Change>): (r: View)
    requires Viewable(s)
    ensures Viewable(r)
  {
    if cs == [] then s else Changed(ChangedAll(s, cs[..|cs| - 1]), cs[|cs| - 1])
  }

  ghost predicate PossibleAll(s: View, cs: seq<Change>, primary: seq<bool>)
    requires Viewable(s)
  {
    forall k :: 0 <= k < |cs| ==> Possible(ChangedAll(s, cs[..k]), cs[k], primary)
  }

  /** No run touches another row. */
  lemma {:induction false} OthersKept(s: View, cs: seq<Change>, r: nat)
    requires Viewable(s) && r < |s.rows| && r != s.at
    ensures var s' := ChangedAll(s, cs); s'.at == s.at && |s'.rows| == |s.rows| && s'.rows[r] == s.rows[r]
    decreases |cs|
  {
    if cs != [] {
      OthersKept(s, cs[..|cs| - 1], r);
    }
  }

  /** Right after an accepted update the stored row is what the last setters said, whatever happened
      before and however many setters and refused updates there were. */
  lemma SavedRow(s: View, cs: seq<Change>)
    requires Viewable(s) && cs != [] && cs[|cs| - 1] == Save(true)
    ensures var s' := ChangedAll(s, cs);
            s'.rows[s'.at] == s'.row == ChangedAll(s, cs[..|cs| - 1]).row && true !in s'.changed
  {
  }

  /** A statement sets something if a field is changed, and looks for something if there is a key. */
  lemma StatementSays(fields: seq<Field>, primary: seq<bool>)
    requires |fields| == |primary| && true in DirtyFlags(fields) && true in primary
    ensures var s := UpdateStatement(fields, primary); s.sets != [] && s.wheres != []
  {
    hide ClauseOf, Eval;
    var sets := ClauseOf(fields, DirtyFlags(fields), |fields|, 0);
    var wheres := ClauseOf(KeyFields(fields), primary, |fields|, |sets.binds|);
    BindsApart(sets.binds, wheres.binds);
    ClauseMeans(fields, DirtyFlags(fields), |fields|, 0, sets.binds + wheres.binds);
    ClauseMeans(KeyFields(fields), primary, |fields|, |sets.binds|, sets.binds + wheres.binds);
    var i :| 0 <= i < |fields| && DirtyFlags(fields)[i];
    var j :| 0 <= j < |primary| && primary[j];
    assert exists t :: t in sets.terms && t.column == i;
    assert exists t :: t in wheres.terms && t.column == j;
  }

  lemma PossibleAccepted(fields: seq<Field>, primary: seq<bool>, rows: seq<Row>, at: nat)
    requires |fields| == |primary| && at < |rows| && Keyed(rows, primary) && Mirrors(fields, rows[at])
    requires true in DirtyFlags(fields) && true in primary && Keyed(rows[at := CurrentRow(fields)], primary)
    ensures Accepts(rows, UpdateStatement(fields, primary), primary)
  {
    hide Keyed, Mirrors, Executed, UpdateStatement;
    UpdateReaches(fields, primary, rows, at);
    StatementSays(fields, primary);
  }

  ghost function TextFlags(fields: seq<Field>): seq<bool>
  {
    seq(|fields|, i requires 0 <= i < |fields| => fields[i].isText)
  }

  lemma FlagsSet(before: seq<Field>, after: seq<Field>, i: nat)
    requires i < |before| == |after| && after == before[i := after[i]] && after[i].isText == before[i].isText
    ensures TextFlags(after) == TextFlags(before) && CurrentRow(after) == CurrentRow(before)[i := Current(after[i])]
    ensures DirtyFlags(after) == DirtyFlags(before)[i := after[i].dirty]
  {
  }

  lemma FlagAt(fields: seq<Field>, i: nat)
    ensures |TextFlags(fields)| == |CurrentRow(fields)| == |DirtyFlags(fields)| == |fields|
    ensures i < |fields| ==> TextFlags(fields)[i] == fields[i].isText && CurrentRow(fields)[i] == Current(fields[i])
    ensures i < |fields| ==> DirtyFlags(fields)[i] == fields[i].dirty
  {
  }

  lemma FlagsSame(before: seq<Field>, after: seq<Field>)
    requires SameNames(before, after)
    ensures TextFlags(after) == TextFlags(before)
  {
  }

  lemma FlagsClear(fields: seq<Field>)
    requires forall i :: 0 <= i < |fields| ==> !fields[i].dirty
    ensures DirtyFlags(fields) == seq(|fields|, _ => false)
  {
  }

  /** A number field made null that way: the row still holds 5, and an update sets nothing. */
  lemma NullLost()
    ensures var f := Field("a", false, MValue(5, ""), MValue(0, ""), false, false, false);
            && Tracks(f, Val(Int(5))) && !Tracks(f.(isNull := true), Val(Int(5)))
            && UpdateStatement([f.(isNull := true)], [false]) == Statement([], [], [])
  {
    var f := Field("a", false, MValue(5, ""), MValue(0, ""), false, true, false);
    assert DirtyFlags([f])[0] == false;
    assert ClauseOf([f], DirtyFlags([f]), 0, 0) == Clause([], []);
    assert ClauseOf([f], DirtyFlags([f]), 1, 0) == Clause([], []);
    assert ClauseOf(KeyFields([f]), [false], 0, 0) == Clause([], []);
    assert ClauseOf(KeyFields([f]), [false], 1, 0) == Clause([], []);
  }

  /** A record, and the table its row is in: changed only through updates of this record. */
  class Record {
    var fields: seq<Field>
    const primary: seq<bool>
    ghost var rows: seq<Row>
    ghost var at: nat

    /** The record and its row agree, changes apart. */
    ghost predicate Valid()
      reads this
    {
      |fields| == |primary| && at < |rows| && Keyed(rows, primary) && Mirrors(fields, rows[at])
    }

    constructor (fields: seq<Field>, primary: seq<bool>)
      requires |fields| == |primary|
      ensures this.fields == fields && this.primary == primary
    {
      this.fields, this.primary, this.rows, this.at := fields, primary, [], 0;
    }

    /** model_set_int. The other number types differ only in the union member. */
    method SetInt(i: nat, n: int) returns (ok: bool)
      requires i < |fields|
      modifies this`fields
      ensures ok == !old(fields)[i].isText
      ensures |fields| == |old(fields)| && fields == old(fields)[i := fields[i]] && (!ok ==> fields[i] == old(fields)[i])
      ensures ok ==> fields[i].dirty && Current(fields[i]) == Val(Int(n))
      ensures SameNames(old(fields), fields) && (ok && fields[i].raw ==> fields[i].isNull)
      ensures forall stored :: Tracks(old(fields)[i], stored) ==> Tracks(fields[i], stored)
      ensures old(Valid()) ==> Valid()
    {
      var f := fields[i];
      if f.isText {
        return false;
      }
      if !f.dirty {
        f := f.(oldvalue := f.oldvalue.(number := f.value.number));
        f := f.(dirty := true);
      }
      f := f.(value := f.value.(number := n));
      f := f.(isNull := false);
      f := f.(raw := false);
      f := f.(value := f.value.(text := ""));
      fields := fields[i := f];
      ok := true;
    }

    /** __model_set_binary, None being a null pointer. */
    method SetText(i: nat, v: Option<string>) returns (ok: bool)
      requires i < |fields|
      modifies this`fields
      ensures ok == old(fields)[i].isText
      ensures |fields| == |old(fields)| && fields == old(fields)[i := fields[i]] && (!ok ==> fields[i] == old(fields)[i])
      ensures ok ==> fields[i].dirty && Current(fields[i]) == if v.None? then Null else Val(Text(v.value))
      ensures SameNames(old(fields), fields) && (ok && fields[i].raw ==> fields[i].isNull)
      ensures forall stored :: Tracks(old(fields)[i], stored) ==> Tracks(fields[i], stored)
      ensures old(Valid()) ==> Valid()
    {
      var f := fields[i];
      if !f.isText {
        return false;
      }
      if !f.dirty {
        f := f.(oldvalue := f.oldvalue.(text := f.value.text), value := f.value.(text := ""));
        f := f.(dirty := true);
      }
      f := f.(value := f.value.(text := ""));
      if v.None? {
        f := f.(isNull := true);
      } else {
        f := f.(isNull := false);
        f := f.(raw := false);
        f := f.(value := f.value.(text := v.value));
      }
      fields := fields[i := f];
      ok := true;
    }

    /** model_set_int_from_str with a null pointer: the field becomes null but is not marked as
        changed, so the record keeps track of its row exactly if it was changed or null already. */
    method SetIntNull(i: nat) returns (ok: bool)
      requires i < |fields|
      modifies this`fields
      ensures ok && |fields| == |old(fields)| && fields == old(fields)[i := fields[i]] && Current(fields[i]) == Null
      ensures fields[i].dirty == old(fields)[i].dirty && SameNames(old(fields), fields)
      ensures forall stored :: Tracks(old(fields)[i], stored) ==>
                (Tracks(fields[i], stored) <==> old(fields)[i].dirty || old(fields)[i].isNull)
    {
      fields := fields[i := fields[i].(isNull := true)];
      ok := true;
    }

    /** __model_fill: each column of the result goes to the first field of its name. */
    method Fill(names: seq<string>, row: Row) returns (ok: bool)
      requires |names| == |row| && Distinct(fields)
      modifies this`fields
      ensures |fields| == |old(fields)| && Distinct(fields)
      ensures ok == Typed(names, row, old(fields))
      ensures ok ==> forall i :: 0 <= i < |fields| ==> Fills(names, row, old(fields)[i], fields[i])
    {
      ghost var before := fields;
      for col := 0 to |names|
        invariant |fields| == |before| && SameNames(before, fields)
        invariant forall c, i :: 0 <= c < col && 0 <= i < |fields| && names[c] == before[i].name ==> TypedCell(before[i], row[c])
        invariant forall i :: 0 <= i < |fields| ==> Fills(names[..col], row[..col], before[i], fields[i])
      {
        ghost var sofar := fields;
        for i := 0 to |fields|
          invariant fields == sofar && forall k :: 0 <= k < i ==> fields[k].name != names[col]
        {
          if fields[i].name == names[col] {
            ok := FillField(i, row[col]);
            if !ok {
              return;
            }
            break;
          }
        }
        forall i | 0 <= i < |fields|
          ensures Fills(names[..col + 1], row[..col + 1], before[i], fields[i])
        {
          LastCellMore(names, row, col, before[i].name);
        }
      }
      assert names[..|names|] == names && row[..|row|] == row;
      ok := true;
    }

    /** The from_str function of the field's type, and the end of its change. */
    method FillField(i: nat, cell: Cell) returns (ok: bool)
      requires i < |fields|
      modifies this`fields
      ensures |fields| == |old(fields)| && fields == old(fields)[i := fields[i]]
      ensures fields[i].name == old(fields)[i].name && fields[i].isText == old(fields)[i].isText
      ensures ok ==> FilledFrom(old(fields)[i], fields[i], cell)
      ensures ok == TypedCell(old(fields)[i], cell)
    {
      if fields[i].isText {
        if cell.Val? && cell.v.Int? {
          return false;
        }
        ok := SetText(i, if cell.Null? then None else Some(cell.v.s));
      } else if cell.Null? {
        ok := SetIntNull(i);
      } else if cell.v.Text? {
        return false;
      } else {
        ok := SetInt(i, cell.v.n);
      }
      fields := fields[i := fields[i].(dirty := false)];
    }

    /** A record filled from a whole row of a keyed table agrees with it. */
    method Load(names: seq<string>, row: Row, ghost rows: seq<Row>, ghost at: nat) returns (ok: bool)
      requires Distinct(fields) && |names| == |row| == |fields| == |primary|
      requires forall i :: 0 <= i < |names| ==> names[i] == fields[i].name
      requires at < |rows| && Keyed(rows, primary) && rows[at] == row
      modifies this
      ensures ok == Typed(names, row, old(fields))
      ensures ok ==> Valid() && this.rows == rows && this.at == at && CurrentRow(fields) == row
      ensures ok ==> forall i :: 0 <= i < |fields| ==> !fields[i].dirty
    {
      ghost var before := fields;
      ok := Fill(names, row);
      this.rows, this.at := rows, at;
      if ok {
        forall i | 0 <= i < |fields|
          ensures FilledFrom(before[i], fields[i], row[i])
        {
          LastCellOwn(names, row, i);
        }
      }
    }

    /** __model_append_bind on one column of a clause. */
    static method AppendBind(f: Field, column: nat, terms0: seq<Term>, binds0: seq<Value>, idx0: nat)
      returns (f': Field, terms: seq<Term>, binds: seq<Value>, idx: nat)
      requires f.raw ==> f.isNull
      ensures f' == Stringed(f) && terms == terms0 + [Term(column, Operation(f, idx0))]
      ensures binds == binds0 + Bound(f) && idx == idx0 + |Bound(f)|
    {
      f', binds, idx := Stringed(f), binds0, idx0;
      if f'.raw {
        terms := terms0 + [Term(column, Inline(f'.value.text))];
      } else {
        idx := idx + 1;
        terms := terms0 + [Term(column, Placeholder(idx))];
        binds := binds + [Content(f, f'.value)];
      }
    }

    /** The SET clause: every changed field with its new value. */
    method BuildSets() returns (sets: seq<Term>, binds: seq<Value>, idx: nat)
      requires forall i :: 0 <= i < |fields| ==> fields[i].raw ==> fields[i].isNull
      modifies this`fields
      ensures StringedTo(old(fields), fields)
      ensures forall i :: 0 <= i < |fields| && !fields[i].dirty ==> fields[i] == old(fields)[i]
      ensures Clause(sets, binds) == ClauseOf(old(fields), DirtyFlags(old(fields)), |old(fields)|, 0) && idx == |binds|
    {
      hide Stringed, Operation, Bound;
      ghost var before := fields;
      sets, binds, idx := [], [], 0;
      for i := 0 to |fields|
        invariant StringedTo(before, fields) && (forall k :: i <= k < |fields| ==> fields[k] == before[k])
        invariant forall k :: 0 <= k < i && !before[k].dirty ==> fields[k] == before[k]
        invariant Clause(sets, binds) == ClauseOf(before, DirtyFlags(before), i, 0) && idx == |binds|
      {
        StringedSame(before[i]);
        if fields[i].dirty {
          var f;
          f, sets, binds, idx := AppendBind(fields[i], i, sets, binds, idx);
          fields := fields[i := f];
        }
      }
      forall i | 0 <= i < |fields|
        ensures fields[i].dirty == before[i].dirty
      {
        StringedSame(before[i]);
      }
    }

    /** The WHERE clause: every key column, a changed one with its old value. */
    method BuildWheres(binds0: seq<Value>, idx0: nat, ghost before: seq<Field>)
      returns (wheres: seq<Term>, binds: seq<Value>, idx: nat)
      requires |fields| == |primary| && StringedTo(before, fields) && idx0 == |binds0|
      requires forall i :: 0 <= i < |before| ==> before[i].raw ==> before[i].isNull
      requires forall i :: 0 <= i < |fields| && !fields[i].dirty ==> fields[i] == before[i]
      modifies this`fields
      ensures StringedTo(before, fields)
      ensures var l := ClauseOf(KeyFields(before), primary, |before|, idx0); wheres == l.terms && binds == binds0 + l.binds
    {
      hide Stringed, Operation, Bound;
      ghost var more: seq<Value> := [];
      wheres, binds, idx := [], binds0, idx0;
      for i := 0 to |fields|
        invariant |fields| == |primary| && StringedTo(before, fields) && binds == binds0 + more && idx == idx0 + |more|
        invariant forall k :: i <= k < |fields| && !fields[k].dirty ==> fields[k] == before[k]
        invariant Clause(wheres, more) == ClauseOf(KeyFields(before), primary, i, idx0)
      {
        StringedSame(before[i]);
        if primary[i] {
          var f;
          if fields[i].dirty {
            f, wheres, binds, idx := AppendBind(Clone(fields[i]), i, wheres, binds, idx);
          } else {
            f, wheres, binds, idx := AppendBind(fields[i], i, wheres, binds, idx);
            fields := fields[i := f];
          }
          more := more + Bound(KeyField(before[i]));
        }
      }
    }

    /** model_update. The database's answer is a parameter: it accepts only statements with
        something to set and to look for, and only when the keys stay unique and not null. A
        successful update makes the stored row equal to the record, found by the key it was stored
        under, and touches no other row; a refused one changes neither table nor record. */
    method Update(accepted: bool) returns (ok: bool, sent: Statement)
      requires Valid() && (accepted ==> Accepts(rows, UpdateStatement(fields, primary), primary))
      modifies this
      ensures Valid() && ok == accepted && at == old(at) && sent == old(UpdateStatement(fields, primary))
      ensures CurrentRow(fields) == old(CurrentRow(fields))
      ensures Understood(sent) && SetsSay(old(fields), sent)
      ensures ok ==> rows == Executed(old(rows), sent) == old(rows)[at := CurrentRow(fields)]
      ensures ok ==> forall i :: 0 <= i < |fields| ==> !fields[i].dirty
      ensures !ok ==> rows == old(rows) && DirtyFlags(fields) == old(DirtyFlags(fields))
      ensures SameNames(old(fields), fields)
    {
      hide Keyed, UpdateStatement, Executed, Eval, ClauseOf, Known, SetsSay;
      ghost var before := fields;
      UpdateReaches(fields, primary, rows, at);
      StatementKnown(fields, primary);
      assert forall i :: 0 <= i < |fields| ==> Tracks(fields[i], rows[at][i]);
      var sets, binds, idx := BuildSets();
      var wheres;
      wheres, binds, idx := BuildWheres(binds, idx, before);
      sent := Statement(sets, wheres, binds);
      StatementIs(before, primary);
      StringedKeeps(before, fields);
      ok := accepted;
      if !ok {
        return;
      }
      ghost var after := fields;
      rows := Executed(rows, sent);
      for i := 0 to |fields|
        invariant |fields| == |after| && SameNames(before, fields) && forall k :: i <= k < |fields| ==> fields[k] == after[k]
        invariant forall k :: 0 <= k < i ==> Tracks(fields[k], Current(after[k])) && !fields[k].dirty && Current(fields[k]) == Current(after[k])
        modifies this`fields
      {
        assert Tracks(after[i], old(rows)[at][i]);
        fields := fields[i := fields[i].(dirty := false)];
        fields := fields[i := fields[i].(oldvalue := MValue(0, ""))];
      }
      assert CurrentRow(fields) == CurrentRow(after);
    }

    ghost function Seen(): View
      reads this
    {
      View(TextFlags(fields), CurrentRow(fields), DirtyFlags(fields), rows, at)
    }

    /** One setter or update. */
    method Change(c: Change)
      requires Valid() && Possible(Seen(), c, primary)
      modifies this
      ensures Valid() && Seen() == Changed(old(Seen()), c)
    {
      hide Keyed, Tracks, TextFlags, CurrentRow, DirtyFlags, Current, UpdateStatement, Executed;
      match c
      case ChangeInt(i, n) =>
        FlagAt(fields, i);
        var _ := SetInt(i, n);
        FlagsSet(old(fields), fields, i);
      case ChangeText(i, v) =>
        FlagAt(fields, i);
        var _ := SetText(i, v);
        FlagsSet(old(fields), fields, i);
      case Save(accepted) =>
        if accepted {
          PossibleAccepted(fields, primary, rows, at);
        }
        var ok, _ := Update(accepted);
        FlagsSame(old(fields), fields);
        if ok {
          FlagsClear(fields);
          FlagAt(old(fields), 0);
        }
    }

    /** Any run of setters and updates keeps the record in step with its row, and acts as the same
        run on the row and the table. */
    method Run(cs: seq<Change>)
      requires Valid() && PossibleAll(Seen(), cs, primary)
      modifies this
      ensures Valid() && Seen() == ChangedAll(old(Seen()), cs)
    {
      ghost var before := Seen();
      assert Viewable(before);
      hide Valid, Changed, Possible, Seen, Viewable;
      for k := 0 to |cs|
        invariant Valid() && Seen() == ChangedAll(before, cs[..k])
      {
        assert cs[..k + 1][..k] == cs[..k];
        Change(cs[k]);
      }
      assert cs[..|cs|] == cs;
    }
  }
}
