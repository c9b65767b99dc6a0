/** The post-processing that the IRSA `gator` and `region` commands apply to
    a result table: `--col` column selection, `--filter` row filters applied
    one after another, and the found / no-information / error outcome. */
module IrsaCli {
  import opened Wrappers
  import opened Seqs
  import opened PyStr

  /** A table row: a value for each column name. */
  type Row<V> = map<string, V>

  /** An astropy result table: its column names in order, and its rows. */
  datatype Table<V> = Table(colnames: seq<string>, rows: seq<Row<V>>)

  /** Every row has a value for exactly the table's columns. */
  predicate WellFormed<V(!new)>(t: Table<V>)
  {
    forall i :: 0 <= i < |t.rows| ==> t.rows[i].Keys == Elems(t.colnames)
  }

  /** `if result_table`: a table is truthy when present and non-empty. */
  predicate Truthy<V(!new)>(t: Option<Table<V>>)
  {
    t.Some? && |t.value.rows| > 0
  }

  // ----- column selection ---------------------------------------------------

  /** `[col for col in columns if col in col_set]`. */
  function SelectedColumns(colnames: seq<string>, columns: seq<string>): (sel: seq<string>)
    ensures forall c :: c in sel <==> c in columns && c in colnames
  {
    if columns == [] then []
    else (if columns[0] in colnames then [columns[0]] else []) + SelectedColumns(colnames, columns[1..])
  }

  /** The selected names keep the order (and any repetition) of the request. */
  lemma {:induction false} SelectedColumnsInOrder(colnames: seq<string>, columns: seq<string>)
    ensures IsSubsequence(SelectedColumns(colnames, columns), columns)
  {
    if columns != [] {
      var rest := SelectedColumns(colnames, columns[1..]);
      SelectedColumnsInOrder(colnames, columns[1..]);
      var sel := SelectedColumns(colnames, columns);
      if columns[0] in colnames {
        assert sel[0] == columns[0] && sel[1..] == rest;
      } else {
        assert sel == rest;
      }
    }
  }

  /** Every occurrence of a requested name that is a column is kept, and
      nothing else. */
  lemma {:induction false} SelectedColumnsCounts(colnames: seq<string>, columns: seq<string>)
    ensures forall c :: multiset(SelectedColumns(colnames, columns))[c] == if c in colnames then multiset(columns)[c] else 0
  {
    if columns != [] {
      SelectedColumnsCounts(colnames, columns[1..]);
      assert columns == [columns[0]] + columns[1..];
    }
  }

  /** A row cut down to the given columns. */
  function Restrict<V(!new)>(row: Row<V>, names: seq<string>): Row<V>
  {
    map c | c in row && c in names :: row[c]
  }

  /** `result_table[selected_cols]`. */
  function Project<V(!new)>(t: Table<V>, names: seq<string>): Table<V>
  {
    Table(names, seq(|t.rows|, i requires 0 <= i < |t.rows| => Restrict(t.rows[i], names)))
  }

  /** The selection block: only for a truthy table and a `--col` list that is
      non-empty and not exactly `["all"]`; the table is replaced only when at
      least one requested name is a column. */
  function SelectColumns<V(!new)>(t: Option<Table<V>>, columns: seq<string>): Option<Table<V>>
  {
    if Truthy(t) && columns != [] && columns != ["all"] then
      var sel := SelectedColumns(t.value.colnames, columns);
      if sel != [] then Some(Project(t.value, sel)) else t
    else t
  }

  /** Selection keeps the requested names that are columns, in the requested
      order, and every row with its values for those columns; it leaves the
      table alone when it does not apply or when no requested name matches
      (so `"ra,dec"` is one name, not two). */
  lemma SelectColumnsSpec<V(!new)>(t: Option<Table<V>>, columns: seq<string>)
    requires t.Some? ==> WellFormed(t.value)
    ensures !(Truthy(t) && columns != [] && columns != ["all"]) ==> SelectColumns(t, columns) == t
    ensures t.Some? && SelectedColumns(t.value.colnames, columns) == [] ==> SelectColumns(t, columns) == t
    ensures Truthy(t) && columns != [] && columns != ["all"] && SelectedColumns(t.value.colnames, columns) != [] ==>
      var r := SelectColumns(t, columns).value;
      && r.colnames == SelectedColumns(t.value.colnames, columns)
      && IsSubsequence(r.colnames, columns)
      && (forall c :: c in r.colnames <==> c in columns && c in t.value.colnames)
      && |r.rows| == |t.value.rows|
      && (forall i, c :: 0 <= i < |r.rows| && c in r.colnames ==> c in r.rows[i] && r.rows[i][c] == t.value.rows[i][c])
    ensures SelectColumns(t, columns).Some? <==> t.Some?
    ensures SelectColumns(t, columns).Some? ==> WellFormed(SelectColumns(t, columns).value)
  {
    if t.Some? {
      SelectedColumnsInOrder(t.value.colnames, columns);
      var sel := SelectedColumns(t.value.colnames, columns);
      var p := Project(t.value, sel);
      forall i | 0 <= i < |p.rows| ensures p.rows[i].Keys == Elems(sel) {
        assert p.rows[i] == Restrict(t.value.rows[i], sel);
      }
    }
  }

  // ----- the filter pattern -------------------------------------------------

  /** `\w`, ASCII letters, digits and `_`. */
  predicate IsWordChar(c: char)
  {
    'a' <= c <= 'z' || 'A' <= c <= 'Z' || '0' <= c <= '9' || c == '_'
  }

  /** `[<>=!]`. */
  predicate IsOpChar(c: char)
  {
    c == '<' || c == '>' || c == '=' || c == '!'
  }

  /** `[\w\.\-]`. */
  predicate IsValueChar(c: char)
  {
    IsWordChar(c) || c == '.' || c == '-'
  }

  /** The four character classes of the pattern; `Space` is `\s`. */
  datatype CharClass = Word | Space | Op | Value

  predicate InClass(c: char, k: CharClass)
  {
    match k
    case Word => IsWordChar(c)
    case Space => IsSpace(c)
    case Op => IsOpChar(c)
    case Value => IsValueChar(c)
  }

  /** The end of the longest run of class `k` starting at `i`. */
  function Span(s: string, i: nat, k: CharClass): (j: nat)
    requires i <= |s|
    ensures i <= j <= |s|
    ensures forall t :: i <= t < j ==> InClass(s[t], k)
    ensures j < |s| ==> !InClass(s[j], k)
    decreases |s| - i
  {
    if i < |s| && InClass(s[i], k) then Span(s, i + 1, k) else i
  }

  /** A run of class `k` from `i` to `j` that cannot be extended is the span. */
  lemma SpanUnique(s: string, i: nat, j: nat, k: CharClass)
    requires i <= j <= |s|
    requires forall t :: i <= t < j ==> InClass(s[t], k)
    requires j < |s| ==> !InClass(s[j], k)
    ensures Span(s, i, k) == j
  {
  }

  /** Every character of `s[lo..hi]` is of class `k`. */
  predicate AllIn(s: string, lo: int, hi: int, k: CharClass)
  {
    0 <= lo <= hi <= |s| && forall t :: lo <= t < hi ==> InClass(s[t], k)
  }

  /** `re.match(r"^(\w+)\s*([<>=!]+)\s*([\w\.\-]+)$", s)` succeeds with the
      three groups `s[..a]`, `s[b..c]` and `s[d..e]`; `$` also matches just
      before a final "\n". */
  predicate MatchesAt(s: string, a: int, b: int, c: int, d: int, e: int)
  {
    && 0 < a <= b < c <= d < e <= |s|
    && AllIn(s, 0, a, Word) && AllIn(s, a, b, Space) && AllIn(s, b, c, Op)
    && AllIn(s, c, d, Space) && AllIn(s, d, e, Value)
    && (s[e..] == "" || s[e..] == "\n")
  }

  /** The filter pattern, read left to right one character class at a time:
      the groups `(column, operator, value)` when it matches. */
  function ParseFilter(s: string): Option<(string, string, string)>
  {
    var a := Span(s, 0, Word);
    var b := Span(s, a, Space);
    var c := Span(s, b, Op);
    var d := Span(s, c, Space);
    var e := Span(s, d, Value);
    if 0 < a && b < c && d < e && (s[e..] == "" || s[e..] == "\n") then
      Some((s[..a], s[b..c], s[d..e]))
    else None
  }

  /** What `ParseFilter` accepts matches the pattern, with those groups. */
  lemma ParseFilterSound(s: string)
    ensures ParseFilter(s).Some? ==>
      exists a, b, c, d, e :: MatchesAt(s, a, b, c, d, e) && ParseFilter(s).value == (s[..a], s[b..c], s[d..e])
  {
    var a := Span(s, 0, Word);
    var b := Span(s, a, Space);
    var c := Span(s, b, Op);
    var d := Span(s, c, Space);
    var e := Span(s, d, Value);
    if ParseFilter(s).Some? {
      assert MatchesAt(s, a, b, c, d, e);
    }
  }

  /** Whatever the pattern matches, `ParseFilter` accepts with the same
      groups: the classes are pairwise disjoint where they meet, so the match
      is unique. */
  lemma ParseFilterComplete(s: string, a: int, b: int, c: int, d: int, e: int)
    requires MatchesAt(s, a, b, c, d, e)
    ensures ParseFilter(s) == Some((s[..a], s[b..c], s[d..e]))
  {
    assert !IsWordChar(s[a]) by {
      if a < b {
        assert IsSpace(s[a]);
      } else {
        assert IsOpChar(s[a]);
      }
    }
    SpanUnique(s, 0, a, Word);
    SpanUnique(s, a, b, Space);
    assert IsOpChar(s[b]);
    assert !IsOpChar(s[c]) by {
      if c < d {
        assert IsSpace(s[c]);
      } else {
        assert IsValueChar(s[c]);
      }
    }
    SpanUnique(s, b, c, Op);
    assert IsValueChar(s[d]);
    SpanUnique(s, c, d, Space);
    assert e < |s| ==> s[e] == '\n' by {
      if e < |s| {
        assert s[e..][0] == s[e];
      }
    }
    SpanUnique(s, d, e, Value);
  }

  /** A filter written without spaces, `column`, operator and value glued
      together, parses into exactly those three groups. */
  lemma ParseUnspaced(col: string, op: string, v: string)
    requires col != [] && AllIn(col, 0, |col|, Word)
    requires op != [] && AllIn(op, 0, |op|, Op)
    requires v != [] && AllIn(v, 0, |v|, Value)
    ensures ParseFilter(col + op + v) == Some((col, op, v))
  {
    var s := col + op + v;
    var c, e := |col| + |op|, |s|;
    assert s[..|col|] == col && s[|col|..c] == op && s[c..e] == v;
    assert s[e..] == "";
    assert AllIn(s, 0, |col|, Word) by {
      forall t | 0 <= t < |col| ensures InClass(s[t], Word) {
        assert s[t] == col[t];
      }
    }
    assert AllIn(s, |col|, c, Op) by {
      forall t | |col| <= t < c ensures InClass(s[t], Op) {
        assert s[t] == op[t - |col|];
      }
    }
    assert AllIn(s, c, e, Value) by {
      forall t | c <= t < e ensures InClass(s[t], Value) {
        assert s[t] == v[t - c];
      }
    }
    assert MatchesAt(s, |col|, |col|, c, c, e);
    ParseFilterComplete(s, |col|, |col|, c, c, e);
  }

  /** The six Python comparison operators the filter can name. */
  datatype CompareOp = Lt | Le | Gt | Ge | Eq | Ne

  function OpText(op: CompareOp): string
  {
    match op
    case Lt => "<"
    case Le => "<="
    case Gt => ">"
    case Ge => ">="
    case Eq => "=="
    case Ne => "!="
  }

  /** The operator text as Python reads it between two operands; any other
      run of `<>=!` is a syntax error. */
  function ParseOp(text: string): Option<CompareOp>
  {
    if text == "<" then Some(Lt)
    else if text == "<=" then Some(Le)
    else if text == ">" then Some(Gt)
    else if text == ">=" then Some(Ge)
    else if text == "==" then Some(Eq)
    else if text == "!=" then Some(Ne)
    else None
  }

  /** Operator texts and operators correspond one to one. */
  lemma ParseOpText(op: CompareOp, text: string)
    ensures ParseOp(OpText(op)) == Some(op)
    ensures ParseOp(text).Some? ==> OpText(ParseOp(text).value) == text
    ensures ParseOp(text) == Some(op) <==> text == OpText(op)
  {
  }

  // ----- applying the filters -----------------------------------------------

  /** The value side of a filter: `type(result_table[col][0])(val)` as a
      conversion into the column's type that may fail, and the elementwise
      comparison. */
  datatype Evaluator<!V> = Evaluator(convert: (string, string) -> Option<V>, compare: (CompareOp, V, V) -> bool)

  /** Why the filter loop raised: `result_table[col][0]` on an empty column,
      a value the column type rejects, or an operator `eval` rejects. */
  datatype FilterError = EmptyColumn | ConversionFailed | InvalidOperator

  /** The rows a predicate keeps, in order: `table[mask]`. */
  function Select<V(!new)>(rows: seq<Row<V>>, keep: Row<V> -> bool): (r: seq<Row<V>>)
    ensures forall x :: x in r <==> x in rows && keep(x)
    ensures |r| <= |rows|
  {
    if rows == [] then []
    else (if keep(rows[0]) then [rows[0]] else []) + Select(rows[1..], keep)
  }

  /** `table[mask]` keeps the surviving rows in their original order. */
  lemma {:induction false} SelectInOrder<V(!new)>(rows: seq<Row<V>>, keep: Row<V> -> bool)
    ensures IsSubsequence(Select(rows, keep), rows)
  {
    if rows != [] {
      SelectInOrder(rows[1..], keep);
      var r := Select(rows, keep);
      if keep(rows[0]) {
        assert r[0] == rows[0] && r[1..] == Select(rows[1..], keep);
      } else {
        assert r == Select(rows[1..], keep);
      }
    }
  }

  /** `table[mask]` keeps every copy of a row the mask accepts and no copy
      of one it rejects. */
  lemma {:induction false} SelectCounts<V(!new)>(rows: seq<Row<V>>, keep: Row<V> -> bool)
    ensures forall x :: multiset(Select(rows, keep))[x] == if keep(x) then multiset(rows)[x] else 0
  {
    if rows != [] {
      SelectCounts(rows[1..], keep);
      assert rows == [rows[0]] + rows[1..];
    }
  }

  /** Applying two masks in turn is applying their conjunction. */
  lemma {:induction false} SelectSelect<V(!new)>(rows: seq<Row<V>>, p: Row<V> -> bool, q: Row<V> -> bool, both: Row<V> -> bool)
    requires forall x :: both(x) == (p(x) && q(x))
    ensures Select(Select(rows, p), q) == Select(rows, both)
  {
    if rows != [] {
      SelectSelect(rows[1..], p, q, both);
      var head := if p(rows[0]) then [rows[0]] else [];
      var inner := Select(rows[1..], p);
      assert Select(rows, p) == head + inner;
      if p(rows[0]) {
        assert (head + inner)[0] == rows[0] && (head + inner)[1..] == inner;
      } else {
        assert head + inner == inner;
      }
    }
  }

  /** Masks that agree on every row select the same rows. */
  lemma {:induction false} SelectExt<V(!new)>(rows: seq<Row<V>>, p: Row<V> -> bool, q: Row<V> -> bool)
    requires forall x :: p(x) == q(x)
    ensures Select(rows, p) == Select(rows, q)
  {
    if rows != [] {
      SelectExt(rows[1..], p, q);
    }
  }

  /** The mask `result_table[col] op value`. */
  function RowTest<V(!new)>(col: string, op: CompareOp, v: V, ev: Evaluator<V>): Row<V> -> bool
  {
    (row: Row<V>) => col in row && ev.compare(op, row[col], v)
  }

  /** A filter that names a column of a non-empty table: convert the value,
      read the operator, keep the matching rows. */
  function ApplyFilter<V(!new)>(t: Table<V>, col: string, opText: string, valText: string, ev: Evaluator<V>): Result<Table<V>, FilterError>
  {
    match ev.convert(col, valText)
    case None => Err(ConversionFailed)
    case Some(v) =>
      match ParseOp(opText)
      case None => Err(InvalidOperator)
      case Some(op) => Ok(t.(rows := Select(t.rows, RowTest(col, op, v, ev))))
  }

  /** One pass of the filter loop as the code is written: a filter naming a
      column of a table that earlier filters emptied reads element 0 of an
      empty column and raises. */
  function StepAsWritten<V(!new)>(t: Table<V>, filt: string, ev: Evaluator<V>): Result<Table<V>, FilterError>
  {
    match ParseFilter(filt)
    case None => Ok(t)
    case Some((col, opText, valText)) =>
      if col !in t.colnames then Ok(t)
      else if |t.rows| == 0 then Err(EmptyColumn)
      else ApplyFilter(t, col, opText, valText, ev)
  }

  /** The filter loop as written, stopping at the first error. */
  function FiltersAsWritten<V(!new)>(t: Table<V>, filters: seq<string>, ev: Evaluator<V>): Result<Table<V>, FilterError>
    decreases |filters|
  {
    if filters == [] then Ok(t)
    else
      match FiltersAsWritten(t, filters[..|filters| - 1], ev)
      case Err(e) => Err(e)
      case Ok(t') => StepAsWritten(t', filters[|filters| - 1], ev)
  }

  /** As written, once a filter raises the later filters are never reached. */
  lemma {:induction false} FiltersAsWrittenErrorSticks<V(!new)>(t: Table<V>, filters: seq<string>, k: nat, ev: Evaluator<V>)
    requires k <= |filters|
    requires FiltersAsWritten(t, filters[..k], ev).Err?
    ensures FiltersAsWritten(t, filters, ev) == FiltersAsWritten(t, filters[..k], ev)
    decreases |filters|
  {
    if k < |filters| {
      var n := |filters| - 1;
      assert filters[..n][..k] == filters[..k];
      FiltersAsWrittenErrorSticks(t, filters[..n], k, ev);
    } else {
      assert filters[..k] == filters;
    }
  }

  /** As written, once the filters so far have emptied the table, any further
      filter naming one of its columns raises on the empty column. */
  lemma EmptiedThenNamedRaises<V(!new)>(t: Table<V>, filters: seq<string>, filt: string, ev: Evaluator<V>)
    requires FiltersAsWritten(t, filters, ev).Ok? && FiltersAsWritten(t, filters, ev).value.rows == []
    requires ParseFilter(filt).Some? && ParseFilter(filt).value.0 in FiltersAsWritten(t, filters, ev).value.colnames
    ensures FiltersAsWritten(t, filters + [filt], ev) == Err(EmptyColumn)
  {
    assert (filters + [filt])[..|filters|] == filters;
  }

  /** One pass of the filter loop with the table's truthiness re-checked: an
      empty table stays empty instead of raising. Malformed filters and
      filters naming no column change nothing. */
  function Step<V(!new)>(t: Table<V>, filt: string, ev: Evaluator<V>): Result<Table<V>, FilterError>
  {
    match ParseFilter(filt)
    case None => Ok(t)
    case Some((col, opText, valText)) =>
      if col !in t.colnames || |t.rows| == 0 then Ok(t)
      else ApplyFilter(t, col, opText, valText, ev)
  }

  /** The filter loop, stopping at the first error. */
  function Filtered<V(!new)>(t: Table<V>, filters: seq<string>, ev: Evaluator<V>): Result<Table<V>, FilterError>
    decreases |filters|
  {
    if filters == [] then Ok(t)
    else
      match Filtered(t, filters[..|filters| - 1], ev)
      case Err(e) => Err(e)
      case Ok(t') => Step(t', filters[|filters| - 1], ev)
  }

  /** Once a filter raises, the later filters are never reached. */
  lemma {:induction false} FilteredErrorSticks<V(!new)>(t: Table<V>, filters: seq<string>, k: nat, ev: Evaluator<V>)
    requires k <= |filters|
    requires Filtered(t, filters[..k], ev).Err?
    ensures Filtered(t, filters, ev) == Filtered(t, filters[..k], ev)
    decreases |filters|
  {
    if k < |filters| {
      var n := |filters| - 1;
      assert filters[..n][..k] == filters[..k];
      FilteredErrorSticks(t, filters[..n], k, ev);
    } else {
      assert filters[..k] == filters;
    }
  }

  /** `for filt in column_filters`, rebinding `result_table` at each filter
      that names a column; `result_table[col][0]` raises once the table is
      empty, and a raising filter ends the loop. */
  method ApplyFilters<V(!new)>(t: Table<V>, filters: seq<string>, ev: Evaluator<V>) returns (r: Result<Table<V>, FilterError>)
    ensures r == FiltersAsWritten(t, filters, ev)
  {
    var resultTable := t;
    var i := 0;
    while i < |filters|
      invariant 0 <= i <= |filters|
      invariant FiltersAsWritten(t, filters[..i], ev) == Ok(resultTable)
    {
      var filt := filters[i];
      assert filters[..i + 1][..i] == filters[..i];
      var m := ParseFilter(filt);
      if m.Some? {
        var (col, opText, valText) := m.value;
        if col in resultTable.colnames {
          if |resultTable.rows| == 0 {
            r := Err(EmptyColumn);
            FiltersAsWrittenErrorSticks(t, filters, i + 1, ev);
            return;
          }
          var converted := ev.convert(col, valText);
          if converted.None? {
            r := Err(ConversionFailed);
            FiltersAsWrittenErrorSticks(t, filters, i + 1, ev);
            return;
          }
          var op := ParseOp(opText);
          if op.None? {
            r := Err(InvalidOperator);
            FiltersAsWrittenErrorSticks(t, filters, i + 1, ev);
            return;
          }
          resultTable := resultTable.(rows := Select(resultTable.rows, RowTest(col, op.value, converted.value, ev)));
        }
      }
      i := i + 1;
    }
    assert filters[..i] == filters;
    r := Ok(resultTable);
  }

  /** Whether a row passes one filter, judged against the table's columns:
      a filter that does not match the pattern or names no column passes
      every row; one whose value or operator is rejected passes none. */
  predicate Passes<V(!new)>(row: Row<V>, filt: string, colnames: seq<string>, ev: Evaluator<V>)
  {
    match ParseFilter(filt)
    case None => true
    case Some((col, opText, valText)) =>
      col !in colnames ||
      match ev.convert(col, valText)
      case None => false
      case Some(v) =>
        match ParseOp(opText)
        case None => false
        case Some(op) => RowTest(col, op, v, ev)(row)
  }

  /** One filter, as a mask. */
  function PassesOne<V(!new)>(filt: string, colnames: seq<string>, ev: Evaluator<V>): Row<V> -> bool
  {
    (row: Row<V>) => Passes(row, filt, colnames, ev)
  }

  /** The conjunction of all the filters, as a mask. */
  function PassesAll<V(!new)>(filters: seq<string>, colnames: seq<string>, ev: Evaluator<V>): Row<V> -> bool
  {
    (row: Row<V>) => forall i :: 0 <= i < |filters| ==> Passes(row, filters[i], colnames, ev)
  }

  /** Passing all filters is passing all but the last, and the last. */
  lemma PassesAllSnoc<V(!new)>(filters: seq<string>, colnames: seq<string>, ev: Evaluator<V>)
    requires filters != []
    ensures var n := |filters| - 1;
      forall x :: PassesAll(filters, colnames, ev)(x) ==
        (PassesAll(filters[..n], colnames, ev)(x) && PassesOne(filters[n], colnames, ev)(x))
  {
    var n := |filters| - 1;
    assert forall i :: 0 <= i < n ==> filters[..n][i] == filters[i];
  }

  /** A pass of the loop that does not raise applies that filter's mask. */
  lemma StepIsMask<V(!new)>(t: Table<V>, filt: string, ev: Evaluator<V>)
    requires Step(t, filt, ev).Ok?
    ensures Step(t, filt, ev).value == t.(rows := Select(t.rows, PassesOne(filt, t.colnames, ev)))
  {
    var q := PassesOne(filt, t.colnames, ev);
    match ParseFilter(filt)
    case None =>
      SelectExt(t.rows, q, _ => true);
      SelectAll(t.rows);
    case Some((col, opText, valText)) =>
      if col !in t.colnames {
        SelectExt(t.rows, q, _ => true);
        SelectAll(t.rows);
      } else if |t.rows| > 0 {
        var v := ev.convert(col, valText).value;
        var op := ParseOp(opText).value;
        SelectExt(t.rows, q, RowTest(col, op, v, ev));
      }
  }

  /** The filters combine as a conjunction: the surviving rows are exactly
      the input rows that pass every filter, in their original order; the
      columns are untouched. */
  lemma {:induction false} FilteredIsConjunction<V(!new)>(t: Table<V>, filters: seq<string>, ev: Evaluator<V>)
    requires Filtered(t, filters, ev).Ok?
    ensures Filtered(t, filters, ev).value.colnames == t.colnames
    ensures Filtered(t, filters, ev).value.rows == Select(t.rows, PassesAll(filters, t.colnames, ev))
    decreases |filters|
  {
    if filters == [] {
      SelectExt(t.rows, PassesAll(filters, t.colnames, ev), _ => true);
      SelectAll(t.rows);
    } else {
      var n := |filters| - 1;
      var prefix := filters[..n];
      FilteredIsConjunction(t, prefix, ev);
      var cur := Filtered(t, prefix, ev).value;
      StepIsMask(cur, filters[n], ev);
      PassesAllSnoc(filters, t.colnames, ev);
      SelectSelect(t.rows, PassesAll(prefix, t.colnames, ev), PassesOne(filters[n], t.colnames, ev), PassesAll(filters, t.colnames, ev));
    }
  }

  /** The mask that keeps everything keeps every row. */
  lemma {:induction false} SelectAll<V(!new)>(rows: seq<Row<V>>)
    ensures Select(rows, _ => true) == rows
  {
    if rows != [] {
      SelectAll(rows[1..]);
    }
  }

  /** Filtering keeps a subsequence of the rows, so the row count never
      grows, and keeps every row well formed. */
  lemma FilteredShrinks<V(!new)>(t: Table<V>, filters: seq<string>, ev: Evaluator<V>)
    requires Filtered(t, filters, ev).Ok?
    ensures IsSubsequence(Filtered(t, filters, ev).value.rows, t.rows)
    ensures |Filtered(t, filters, ev).value.rows| <= |t.rows|
    ensures WellFormed(t) ==> WellFormed(Filtered(t, filters, ev).value)
  {
    FilteredIsConjunction(t, filters, ev);
    var r := Filtered(t, filters, ev).value;
    SelectInOrder(t.rows, PassesAll(filters, t.colnames, ev));
    SubsequenceLength(r.rows, t.rows);
    if WellFormed(t) {
      forall i | 0 <= i < |r.rows| ensures r.rows[i].Keys == Elems(r.colnames) {
        assert r.rows[i] in t.rows;
      }
    }
  }

  /** A filter that matches the pattern but names a column the table does
      not have (for instance one `--col` deselected) is ignored. */
  lemma AbsentColumnIgnored<V(!new)>(t: Table<V>, filt: string, ev: Evaluator<V>)
    requires ParseFilter(filt).Some? && ParseFilter(filt).value.0 !in t.colnames
    ensures Step(t, filt, ev) == Ok(t)
    ensures StepAsWritten(t, filt, ev) == Ok(t)
  {
  }

  /** The correction changes nothing where the code as written succeeds, and
      where it raises but the correction does not, the table was emptied. */
  lemma {:induction false} CorrectionOnlyAffectsEmptied<V(!new)>(t: Table<V>, filters: seq<string>, ev: Evaluator<V>)
    ensures FiltersAsWritten(t, filters, ev).Ok? ==> Filtered(t, filters, ev) == FiltersAsWritten(t, filters, ev)
    ensures FiltersAsWritten(t, filters, ev).Err? && Filtered(t, filters, ev).Ok? ==>
      FiltersAsWritten(t, filters, ev).error == EmptyColumn && Filtered(t, filters, ev).value.rows == []
    decreases |filters|
  {
    if filters != [] {
      var n := |filters| - 1;
      CorrectionOnlyAffectsEmptied(t, filters[..n], ev);
      var w := FiltersAsWritten(t, filters[..n], ev);
      var c := Filtered(t, filters[..n], ev);
      if w.Err? && c.Ok? {
        assert c.value.rows == [];
        match ParseFilter(filters[n])
        case None =>
        case Some((col, opText, valText)) =>
      }
    }
  }

  /** As written, a filter loop that does not raise keeps the columns and
      exactly the input rows that pass every filter, in their original order,
      so a subsequence of the rows, each still well formed. */
  lemma FiltersAsWrittenShrinks<V(!new)>(t: Table<V>, filters: seq<string>, ev: Evaluator<V>)
    requires FiltersAsWritten(t, filters, ev).Ok?
    ensures FiltersAsWritten(t, filters, ev).value.colnames == t.colnames
    ensures FiltersAsWritten(t, filters, ev).value.rows == Select(t.rows, PassesAll(filters, t.colnames, ev))
    ensures IsSubsequence(FiltersAsWritten(t, filters, ev).value.rows, t.rows)
    ensures WellFormed(t) ==> WellFormed(FiltersAsWritten(t, filters, ev).value)
  {
    CorrectionOnlyAffectsEmptied(t, filters, ev);
    FilteredIsConjunction(t, filters, ev);
    FilteredShrinks(t, filters, ev);
  }

  // ----- the outcome --------------------------------------------------------

  /** What the coordinate parsing and the archive query produced: an
      exception, or an optional table. */
  datatype QueryResult<V> = Raised | Returned(table: Option<Table<V>>)

  /** What the command reports: the matches found, "No information found",
      or the error handler followed by exit code 1. */
  datatype Outcome<V> = Found(count: nat, table: Table<V>) | NoInformation | Failed(exitCode: int)

  /** The filter block: it runs only when the selected table is truthy and
      `--filter` values were given. */
  function FilterSelected<V(!new)>(t: Option<Table<V>>, filters: seq<string>, ev: Evaluator<V>): Result<Option<Table<V>>, FilterError>
  {
    if Truthy(t) && filters != [] then
      match FiltersAsWritten(t.value, filters, ev)
      case Err(e) => Err(e)
      case Ok(t') => Ok(Some(t'))
    else Ok(t)
  }

  /** The filter block with the corrected loop. */
  function FilterSelectedCorrected<V(!new)>(t: Option<Table<V>>, filters: seq<string>, ev: Evaluator<V>): Result<Option<Table<V>>, FilterError>
  {
    if Truthy(t) && filters != [] then
      match Filtered(t.value, filters, ev)
      case Err(e) => Err(e)
      case Ok(t') => Ok(Some(t'))
    else Ok(t)
  }

  /** The final `if result_table and len(result_table) > 0` and the
      exception handler. */
  function Report<V(!new)>(r: Result<Option<Table<V>>, FilterError>): Outcome<V>
  {
    match r
    case Err(_) => Failed(1)
    case Ok(t) => if Truthy(t) then Found(|t.value.rows|, t.value) else NoInformation
  }

  /** The whole post-processing of one `gator` or `region` command. */
  function PostProcess<V(!new)>(query: QueryResult<V>, columns: seq<string>, filters: seq<string>, ev: Evaluator<V>): Outcome<V>
  {
    match query
    case Raised => Failed(1)
    case Returned(t) => Report(FilterSelected(SelectColumns(t, columns), filters, ev))
  }

  /** The post-processing with the corrected filter loop. */
  function PostProcessCorrected<V(!new)>(query: QueryResult<V>, columns: seq<string>, filters: seq<string>, ev: Evaluator<V>): Outcome<V>
  {
    match query
    case Raised => Failed(1)
    case Returned(t) => Report(FilterSelectedCorrected(SelectColumns(t, columns), filters, ev))
  }

  /** A found result reports its own, positive, row count; an exception
      anywhere exits with code 1; a missing or empty table gives "No
      information found"; and the reported table is the selected table
      narrowed by the filters. */
  lemma PostProcessSpec<V(!new)>(query: QueryResult<V>, columns: seq<string>, filters: seq<string>, ev: Evaluator<V>)
    ensures var out := PostProcess(query, columns, filters, ev);
      && (query.Returned? ==>
            var f := FilterSelected(SelectColumns(query.table, columns), filters, ev);
            && (f.Err? ==> out == Failed(1))
            && (f.Ok? && Truthy(f.value) ==> out == Found(|f.value.value.rows|, f.value.value))
            && (f.Ok? && !Truthy(f.value) ==> out == NoInformation))
      && (out.Found? ==> out.count == |out.table.rows| && out.count > 0)
      && (out.Failed? ==> out.exitCode == 1)
      && (query.Raised? ==> out == Failed(1))
      && (query.Returned? && !Truthy(query.table) ==> out == NoInformation)
      && (query.Returned? && out.Failed? ==>
            FilterSelected(SelectColumns(query.table, columns), filters, ev).Err?)
      && (out.Found? ==>
            query.Returned? && query.table.Some? && IsSubsequence(out.table.rows, SelectColumns(query.table, columns).value.rows))
  {
    if query.Returned? {
      var sel := SelectColumns(query.table, columns);
      var out := PostProcess(query, columns, filters, ev);
      if out.Found? {
        assert sel.Some?;
        if Truthy(sel) && filters != [] {
          FiltersAsWrittenShrinks(sel.value, filters, ev);
        } else {
          SubsequenceRefl(sel.value.rows);
        }
      }
    }
  }

  /** With the corrected loop, filters that leave no rows give "No
      information found". */
  lemma EmptiedGivesNoInformation<V(!new)>(t: Table<V>, columns: seq<string>, filters: seq<string>, ev: Evaluator<V>)
    requires Truthy(SelectColumns(Some(t), columns)) && filters != []
    requires Filtered(SelectColumns(Some(t), columns).value, filters, ev) == Ok(SelectColumns(Some(t), columns).value.(rows := []))
    ensures PostProcessCorrected(Returned(Some(t)), columns, filters, ev) == NoInformation
  {
  }

  /** The correction changes the command's outcome only where the code as
      written exits with code 1 because the filters emptied the table; there
      the corrected command reports "No information found". */
  lemma CorrectedOutcomeOnlyAffectsEmptied<V(!new)>(query: QueryResult<V>, columns: seq<string>, filters: seq<string>, ev: Evaluator<V>)
    ensures var w := PostProcess(query, columns, filters, ev);
      var c := PostProcessCorrected(query, columns, filters, ev);
      w == c || (w == Failed(1) && c == NoInformation)
  {
    if query.Returned? {
      var sel := SelectColumns(query.table, columns);
      if Truthy(sel) && filters != [] {
        CorrectionOnlyAffectsEmptied(sel.value, filters, ev);
      }
    }
  }

  /** The two filters of the example below, read by the pattern. */
  lemma ExampleFiltersParse(f1: string, f2: string)
    requires f1 == "w1mpro>10" && f2 == "w1mpro<5"
    ensures ParseFilter(f1) == Some(("w1mpro", ">", "10"))
    ensures ParseFilter(f2) == Some(("w1mpro", "<", "5"))
  {
    var col := "w1mpro";
    assert AllIn(col, 0, |col|, Word);
    assert f1 == col + ">" + "10";
    ParseUnspaced(col, ">", "10");
    assert f2 == col + "<" + "5";
    ParseUnspaced(col, "<", "5");
  }

  /** A table emptied by `w1mpro>10` makes the next filter `w1mpro<5` read
      element 0 of an empty column: as written the command raises and exits
      with code 1, while the corrected command reports "No information
      found". */
  lemma EmptiedTableFailsAsWritten(ev: Evaluator<int>, t: Table<int>, f1: string, f2: string)
    requires t == Table(["w1mpro"], [map["w1mpro" := 3]])
    requires f1 == "w1mpro>10" && f2 == "w1mpro<5"
    requires ev.convert("w1mpro", "10") == Some(10)
    requires !ev.compare(Gt, 3, 10)
    ensures FiltersAsWritten(t, [f1, f2], ev) == Err(EmptyColumn)
    ensures PostProcess(Returned(Some(t)), [], [f1, f2], ev) == Failed(1)
    ensures PostProcessCorrected(Returned(Some(t)), [], [f1, f2], ev) == NoInformation
  {
    ExampleFiltersParse(f1, f2);
    var emptied := t.(rows := []);
    assert !RowTest("w1mpro", Gt, 10, ev)(t.rows[0]);
    assert Select(t.rows, RowTest("w1mpro", Gt, 10, ev)) == [];
    assert ApplyFilter(t, "w1mpro", ">", "10", ev) == Ok(emptied);
    var none: seq<string> := [];
    var fs := [f1, f2];
    assert fs[..1] == [f1] && [f1][..0] == none;
    assert StepAsWritten(t, f1, ev) == Ok(emptied);
    assert FiltersAsWritten(t, [f1], ev) == Ok(emptied);
    assert StepAsWritten(emptied, f2, ev) == Err(EmptyColumn);
    assert Step(t, f1, ev) == Ok(emptied);
    assert Filtered(t, [f1], ev) == Ok(emptied);
    assert Step(emptied, f2, ev) == Ok(emptied);
    assert Filtered(t, fs, ev) == Ok(emptied);
  }

  /** `query_gator` / `query_region` after the query: select, filter, report. */
  method RunQuery<V(!new)>(query: QueryResult<V>, columns: seq<string>, filters: seq<string>, ev: Evaluator<V>) returns (outcome: Outcome<V>)
    ensures outcome == PostProcess(query, columns, filters, ev)
  {
    if query.Raised? {
      outcome := Failed(1);
      return;
    }
    var resultTable := SelectColumns(query.table, columns);
    if Truthy(resultTable) && filters != [] {
      var filtered := ApplyFilters(resultTable.value, filters, ev);
      if filtered.Err? {
        outcome := Failed(1);
        return;
      }
      resultTable := Some(filtered.value);
    }
    if Truthy(resultTable) {
      outcome := Found(|resultTable.value.rows|, resultTable.value);
    } else {
      outcome := NoInformation;
    }
  }
}
