/**
 * The SQL text the loader sends: the multi-row INSERT each partition task
 * executes and the ALTER TABLE that adds the index. How a single scalar is
 * rendered (Python/numpy `repr`) is library behaviour and is a parameter,
 * `render`; only the tuple and list syntax around it is fixed here.
 */
module SqlText {
  import opened PyText
  import opened Frames
  import Partition

  /** Renderings of one row's cells, in column order. */
  function RenderRow<V>(render: Cell<V> -> string, row: Row<V>): seq<string>
  {
    seq(|row|, j requires 0 <= j < |row| => render(row[j]))
  }

  /** `repr` of each tuple of `part.itertuples(index=False, name=None)`, in
      row order, for a slice with `width` columns. pandas zips one array per
      column, so a slice without columns yields no tuple at all, however
      many rows it has. Every tuple's text is parenthesised. */
  function RowTuples<V>(render: Cell<V> -> string, width: nat, rows: seq<Row<V>>): (r: seq<string>)
    ensures |r| == if width == 0 then 0 else |rows|
    ensures forall k :: 0 <= k < |r| ==> |r[k]| >= 2 && r[k][0] == '(' && r[k][|r[k]| - 1] == ')'
    decreases |rows|
  {
    if width == 0 || |rows| == 0 then []
    else RowTuples(render, width, rows[..|rows| - 1]) + [TupleRepr(RenderRow(render, rows[|rows| - 1]))]
  }

  /** Tuple `k` is the repr of row `k`'s rendered cells. */
  lemma {:induction false} RowTuplesAt<V>(render: Cell<V> -> string, width: nat, rows: seq<Row<V>>, k: nat)
    requires width > 0 && k < |rows|
    ensures RowTuples(render, width, rows)[k] == TupleRepr(RenderRow(render, rows[k]))
    decreases |rows|
  {
    if k < |rows| - 1 {
      RowTuplesAt(render, width, rows[..|rows| - 1], k);
    }
  }

  /** In a filled row, a cell that was missing is rendered as the Python
      string "NULL" (quoted text in the statement, not an SQL NULL), and every
      other cell as itself. */
  lemma FilledCellRendering<V>(render: Cell<V> -> string, f: Frame<V>, i: int, j: int)
    requires 0 <= i < |f.rows| && 0 <= j < |f.rows[i]|
    ensures |RenderRow(render, FillNa(f).rows[i])| == |f.rows[i]|
    ensures RenderRow(render, FillNa(f).rows[i])[j] ==
      if f.rows[i][j].Null? then render(Str(NullText)) else render(f.rows[i][j])
  {
    FillNaCells(f);
  }

  /** The column list of the INSERT: the names joined by "`, `" inside one
      outer pair of backticks. */
  function ColumnList(columns: seq<string>): string
  {
    "`" + Join("`, `", columns) + "`"
  }

  function Quoted(name: string): string
  {
    "`" + name + "`"
  }

  function QuoteEach(names: seq<string>): seq<string>
  {
    seq(|names|, i requires 0 <= i < |names| => Quoted(names[i]))
  }

  /** `str(list(tuples)).strip('[').strip(']')`. */
  function ValuesClause<V>(render: Cell<V> -> string, width: nat, rows: seq<Row<V>>): string
  {
    Strip(Strip(ListRepr(RowTuples(render, width, rows)), '['), ']')
  }

  /** The text before the table name and between the parts: the
      backslash-newline continuations of the f-string keep the indentation
      of the lines that follow them. */
  const InsertHead: string := "insert into    "
  const ValuesKeyword: string := ")    values        "

  /** The statement `partly_insert` executes for one slice: the unquoted
      table name, each column in its own backticks separated by ", ", then
      the slice's tuples in row order. With no rows, or no columns, nothing
      follows VALUES. */
  function InsertSql<V>(table: string, columns: seq<string>, render: Cell<V> -> string,
                        rows: seq<Row<V>>): (r: string)
    ensures |columns| > 0 ==>
              r == InsertHead + table + "(" + Join(", ", QuoteEach(columns)) + ValuesKeyword +
                   Join(", ", RowTuples(render, |columns|, rows))
    ensures rows == [] || |columns| == 0 ==>
              r == InsertHead + table + "(" + ColumnList(columns) + ValuesKeyword
  {
    ColumnListQuotesEach(columns);
    ValuesClauseJoinsTuples(render, |columns|, rows);
    InsertHead + table + "(" + ColumnList(columns) + ValuesKeyword + ValuesClause(render, |columns|, rows)
  }

  const AlterHead: string := "ALTER TABLE `"
  const AddIndex: string := "` ADD INDEX ("

  /** The index statement: the table name in backticks, the index columns
      bare and joined by ", ". */
  function IndexSql(table: string, columns: seq<string>): string
  {
    AlterHead + table + AddIndex + Join(", ", columns) + ")"
  }

  /** Every column is wrapped in its own backticks and the quoted names are
      separated by ", ", in frame order; with no columns the list is a bare
      pair of backticks. */
  lemma {:induction false} ColumnListQuotesEach(columns: seq<string>)
    ensures |columns| > 0 ==> ColumnList(columns) == Join(", ", QuoteEach(columns))
    ensures |columns| == 0 ==> ColumnList(columns) == "``"
  {
    if |columns| > 1 {
      var rest := columns[1..];
      ColumnListQuotesEach(rest);
      assert QuoteEach(columns)[1..] == QuoteEach(rest);
      calc {
        ColumnList(columns);
        "`" + (columns[0] + "`, `" + Join("`, `", rest)) + "`";
        ("`" + columns[0] + "`") + ", " + ("`" + Join("`, `", rest) + "`");
        Quoted(columns[0]) + ", " + Join(", ", QuoteEach(rest));
      }
    }
  }

  /** The rendered row tuples of two row lists placed one after the other. */
  lemma {:induction false} RowTuplesAppend<V>(render: Cell<V> -> string, width: nat, a: seq<Row<V>>, b: seq<Row<V>>)
    ensures RowTuples(render, width, a + b) == RowTuples(render, width, a) + RowTuples(render, width, b)
    decreases |b|
  {
    if width > 0 && |b| > 0 {
      assert (a + b)[..|a + b| - 1] == a + b[..|b| - 1];
      assert (a + b)[|a + b| - 1] == b[|b| - 1];
      RowTuplesAppend(render, width, a, b[..|b| - 1]);
    } else if width > 0 {
      assert a + b == a;
    }
  }

  /** The VALUES clause is the rows' tuples in row order joined by ", ",
      with no enclosing brackets; it is empty exactly when the slice has no
      rows or no columns. */
  lemma ValuesClauseJoinsTuples<V>(render: Cell<V> -> string, width: nat, rows: seq<Row<V>>)
    ensures ValuesClause(render, width, rows) == Join(", ", RowTuples(render, width, rows))
    ensures ValuesClause(render, width, rows) == "" <==> rows == [] || width == 0
  {
    var tuples := RowTuples(render, width, rows);
    if |tuples| > 0 {
      JoinEnds(", ", tuples);
    }
    StripOuterBrackets(Join(", ", tuples));
  }

  /** Splitting the rows in two and joining the two VALUES clauses with ", "
      gives the VALUES clause of all the rows. */
  lemma ValuesClauseAppend<V>(render: Cell<V> -> string, width: nat, a: seq<Row<V>>, b: seq<Row<V>>)
    requires a != [] && b != []
    ensures width > 0 ==>
      ValuesClause(render, width, a + b) == ValuesClause(render, width, a) + ", " + ValuesClause(render, width, b)
    ensures width == 0 ==> ValuesClause(render, width, a + b) == ""
  {
    ValuesClauseJoinsTuples(render, width, a);
    ValuesClauseJoinsTuples(render, width, b);
    ValuesClauseJoinsTuples(render, width, a + b);
    if width > 0 {
      RowTuplesAppend(render, width, a, b);
      JoinAppend(", ", RowTuples(render, width, a), RowTuples(render, width, b));
    }
  }

  /** The non-empty strings of `xs`, in order. */
  function NonEmpty(xs: seq<string>): (r: seq<string>)
    ensures forall k :: 0 <= k < |r| ==> r[k] != ""
  {
    if |xs| == 0 then []
    else NonEmpty(xs[..|xs| - 1]) + (if xs[|xs| - 1] == "" then [] else [xs[|xs| - 1]])
  }

  /** The VALUES clause of each slice, in slice order. */
  function Clauses<V>(render: Cell<V> -> string, width: nat, parts: seq<seq<Row<V>>>): seq<string>
  {
    seq(|parts|, i requires 0 <= i < |parts| => ValuesClause(render, width, parts[i]))
  }

  /** The row tuples of `rows` joined by ", ": the VALUES clause once the
      brackets are gone (ValuesClauseJoinsTuples), which keeps the
      inductions below clear of `strip`. */
  function Joined<V>(render: Cell<V> -> string, width: nat, rows: seq<Row<V>>): string
  {
    Join(", ", RowTuples(render, width, rows))
  }

  function JoinedEach<V>(render: Cell<V> -> string, width: nat, parts: seq<seq<Row<V>>>): seq<string>
  {
    seq(|parts|, i requires 0 <= i < |parts| => Joined(render, width, parts[i]))
  }

  lemma JoinedEmpty<V>(render: Cell<V> -> string, width: nat, rows: seq<Row<V>>)
    ensures Joined(render, width, rows) == "" <==> RowTuples(render, width, rows) == []
  {
    if RowTuples(render, width, rows) != [] {
      JoinEnds(", ", RowTuples(render, width, rows));
    }
  }

  lemma {:induction false} JoinedCoverRows<V>(render: Cell<V> -> string, width: nat, parts: seq<seq<Row<V>>>)
    ensures Join(", ", NonEmpty(JoinedEach(render, width, parts))) ==
      Joined(render, width, Partition.Concat(parts))
  {
    if |parts| > 0 {
      var init, last := parts[..|parts| - 1], parts[|parts| - 1];
      JoinedCoverRows(render, width, init);
      var cs := JoinedEach(render, width, parts);
      assert cs[..|cs| - 1] == JoinedEach(render, width, init);
      assert cs[|cs| - 1] == Joined(render, width, last);
      assert Partition.Concat(parts) == Partition.Concat(init) + last;
      JoinedCoverStep(render, width, NonEmpty(JoinedEach(render, width, init)), Partition.Concat(init), last);
    } else {
      assert RowTuples(render, width, []) == [];
    }
  }

  /** One more slice after rows `before` whose non-empty joined clauses are `rest`. */
  lemma JoinedCoverStep<V>(render: Cell<V> -> string, width: nat, rest: seq<string>,
                           before: seq<Row<V>>, last: seq<Row<V>>)
    requires forall k :: 0 <= k < |rest| ==> rest[k] != ""
    requires Join(", ", rest) == Joined(render, width, before)
    ensures Join(", ", rest + (if Joined(render, width, last) == "" then [] else [Joined(render, width, last)])) ==
      Joined(render, width, before + last)
  {
    JoinedEmpty(render, width, last);
    JoinedEmpty(render, width, before);
    RowTuplesAppend(render, width, before, last);
    var tb, tl := RowTuples(render, width, before), RowTuples(render, width, last);
    if tl == [] {
      assert rest + [] == rest;
      assert tb + tl == tb;
    } else if rest == [] {
      assert tb == [];
      assert tb + tl == tl;
    } else {
      JoinEnds(", ", rest);
      JoinAppend(", ", rest, [Joined(render, width, last)]);
      JoinAppend(", ", tb, tl);
    }
  }

  /** Across all slices: the non-empty VALUES clauses, in slice order and
      joined by ", ", are the VALUES clause of all the rows together. Each
      row is sent once, in its place. */
  lemma ClausesCoverRows<V>(render: Cell<V> -> string, width: nat, parts: seq<seq<Row<V>>>)
    ensures Join(", ", NonEmpty(Clauses(render, width, parts))) ==
      ValuesClause(render, width, Partition.Concat(parts))
  {
    forall i | 0 <= i < |parts| ensures Clauses(render, width, parts)[i] == JoinedEach(render, width, parts)[i] {
      ValuesClauseJoinsTuples(render, width, parts[i]);
    }
    assert Clauses(render, width, parts) == JoinedEach(render, width, parts);
    ValuesClauseJoinsTuples(render, width, Partition.Concat(parts));
    JoinedCoverRows(render, width, parts);
  }

  /** The index columns appear in order, bare, separated by ", ", right
      after "ADD INDEX (". */
  lemma IndexSqlListsColumns(table: string, columns: seq<string>, k: nat)
    requires k < |columns|
    ensures var at := |AlterHead| + |table| + |AddIndex| + Offset(", ", columns, k);
      at + |columns[k]| <= |IndexSql(table, columns)| &&
      IndexSql(table, columns)[at..at + |columns[k]|] == columns[k]
  {
    var pre := AlterHead + table + AddIndex;
    assert |pre| == |AlterHead| + |table| + |AddIndex|;
    assert IndexSql(table, columns) == pre + Join(", ", columns) + ")";
    JoinedWithin(pre, ", ", columns, ")", k);
  }

  /** The two statements the loader executes. */
  datatype Statement<V> =
    | InsertRows(table: string, columns: seq<string>, rows: seq<Row<V>>)
    | AddIndexOn(table: string, columns: seq<string>)

  /** The text handed to `cursor.execute`. */
  function StatementText<V>(render: Cell<V> -> string, st: Statement<V>): string
  {
    match st
    case InsertRows(t, cs, rows) => InsertSql(t, cs, render, rows)
    case AddIndexOn(t, cs) => IndexSql(t, cs)
  }

  /** An INSERT and an ALTER TABLE can never be the same text. */
  lemma InsertIsNotIndex<V>(table: string, columns: seq<string>, render: Cell<V> -> string,
                            rows: seq<Row<V>>, t: string, index: seq<string>)
    ensures InsertSql(table, columns, render, rows) != IndexSql(t, index)
  {
    assert InsertSql(table, columns, render, rows)[0] == 'i';
    assert IndexSql(t, index)[0] == 'A';
  }
}
