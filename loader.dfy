/**
 * `p_to_sql` as the ordered list of actions it performs against the
 * database: the zero-row bootstrap `to_sql`, then for a DataFrame one
 * connect/execute/commit/close block per partition task (for a Series one
 * direct `to_sql` instead), then, if index columns were given, the
 * connect/ALTER TABLE/close block. Every database call is recorded as an
 * action and assumed to return.
 */
module Loader {
  import opened Wrappers
  import opened Frames
  import opened SqlText
  import Partition
  import opened PyText

  datatype Action<V> =
    /** `dataframe.iloc[0: 0].to_sql(table_name, con, if_exists='append', index=False)` */
    | Bootstrap(table: string, columns: seq<string>)
    /** `MySQLdb.connect(...)` followed by `engine.cursor()` */
    | Connect
    /** `cursor.execute(text)` for the statement's text (SqlText.StatementText) */
    | Execute(statement: Statement<V>)
    | Commit
    | Close
    /** `series.to_sql(table_name, con, **to_sql_kargs)` on the filled series */
    | DirectToSql(table: string, series: Frame<V>)

  /** The actions performed and the exception, if any, that ended the call. */
  datatype Run<V> = Run(actions: seq<Action<V>>, raised: Option<Partition.Error>)

  /** `delayed(partly_insert)(part_sequence)` */
  datatype Task = PartlyInsert(partSequence: nat)

  /** What `partly_insert(part_sequence)` does: it reads `all_parts[part_sequence]`
      and nothing else of the data. */
  function PartlyInsertActions<V>(table: string, columns: seq<string>,
                                  allParts: seq<seq<Row<V>>>, task: Task): seq<Action<V>>
    requires task.partSequence < |allParts|
  {
    var part := allParts[task.partSequence];
    [Connect, Execute(InsertRows(table, columns, part)), Commit, Close]
  }

  /** The actions of tasks `0 .. k - 1`, run one after the other. */
  function InsertActions<V>(table: string, columns: seq<string>,
                            allParts: seq<seq<Row<V>>>, k: nat): seq<Action<V>>
    requires k <= |allParts|
  {
    if k == 0 then []
    else InsertActions(table, columns, allParts, k - 1) +
         PartlyInsertActions(table, columns, allParts, PartlyInsert(k - 1))
  }

  /** `if index:` — an empty list (or the default `False`) is falsy. No commit
      follows the ALTER TABLE. */
  function IndexActions<V>(table: string, index: seq<string>): seq<Action<V>>
  {
    if |index| > 0 then [Connect, Execute(AddIndexOn(table, index)), Close] else []
  }

  /** The writes after the split: one task per slice for a DataFrame, one
      direct `to_sql` for a Series (whose tasks are built but never computed). */
  function Writes<V>(filled: Frame<V>, table: string,
                     allParts: seq<seq<Row<V>>>): seq<Action<V>>
  {
    if filled.kind.DataFrame?
    then InsertActions(table, filled.columns, allParts, |allParts|)
    else [DirectToSql(table, filled)]
  }

  /** Everything `p_to_sql(frame, table, con, index, partitions)` does. */
  function Plan<V>(frame: Frame<V>, table: string, index: seq<string>, partitions: int): (r: Run<V>)
    ensures |r.actions| > 0 && r.actions[0] == Bootstrap(table, frame.columns)
    ensures r.raised.Some? <==> partitions <= 0
    ensures r.raised.Some? ==> r.raised.value == Partition.SectionsError && |r.actions| == 1
  {
    var filled := FillNa(frame);
    var split := Partition.ArraySplit(filled.rows, partitions);
    if split.Failure? then Run([Bootstrap(table, frame.columns)], Some(split.error))
    else Run([Bootstrap(table, frame.columns)] + Writes(filled, table, split.value) +
             IndexActions(table, index), None)
  }

  /** The `for part_sequence in np.arange(partitions)` loop: one task per
      partition index, in order. */
  method ScheduleTasks(partitions: int) returns (results: seq<Task>)
    ensures |results| == if partitions > 0 then partitions else 0
    ensures forall i :: 0 <= i < |results| ==> results[i] == PartlyInsert(i)
  {
    results := [];
    var partSequence := 0;
    while partSequence < partitions
      invariant 0 <= partSequence
      invariant partSequence <= if partitions > 0 then partitions else 0
      invariant |results| == partSequence
      invariant forall i :: 0 <= i < partSequence ==> results[i] == PartlyInsert(i)
    {
      results := results + [PartlyInsert(partSequence)];
      partSequence := partSequence + 1;
    }
  }

  /** `p_to_sql`, step by step; the scheduler's `compute` is modelled as
      running the tasks one after the other in partition order. */
  method PToSql<V>(frame: Frame<V>, table: string, index: seq<string>, partitions: int) returns (run: Run<V>)
    ensures run == Plan(frame, table, index, partitions)
  {
    var actions := [Bootstrap(table, frame.columns)];
    var dataframe := FillNa(frame);
    var split := Partition.ArraySplit(dataframe.rows, partitions);
    if split.Failure? {
      return Run(actions, Some(split.error));
    }
    var allParts := split.value;
    Partition.ArraySplitSizes(dataframe.rows, partitions);
    var results := ScheduleTasks(partitions);
    if dataframe.kind.DataFrame? {
      var k := 0;
      while k < |results|
        invariant 0 <= k <= |results|
        invariant actions == [Bootstrap(table, frame.columns)] +
          InsertActions(table, dataframe.columns, allParts, k)
      {
        actions := actions + PartlyInsertActions(table, dataframe.columns, allParts, results[k]);
        k := k + 1;
      }
    } else {
      actions := actions + [DirectToSql(table, dataframe)];
    }
    if |index| > 0 {
      actions := actions + [Connect, Execute(AddIndexOn(table, index)), Close];
    }
    run := Run(actions, None);
  }

  /** What a partition task may do: connect, commit, close, or execute an
      INSERT. */
  predicate IsTaskAction<V>(a: Action<V>)
  {
    a.Connect? || a.Commit? || a.Close? ||
    (a.Execute? && a.statement.InsertRows?)
  }

  /** The tasks' actions are `4 * k` task actions. */
  lemma {:induction false} InsertActionsKinds<V>(table: string, columns: seq<string>,
                                                 allParts: seq<seq<Row<V>>>, k: nat)
    requires k <= |allParts|
    ensures |InsertActions(table, columns, allParts, k)| == 4 * k
    ensures forall m :: 0 <= m < 4 * k ==> IsTaskAction(InsertActions(table, columns, allParts, k)[m])
  {
    if k > 0 {
      InsertActionsKinds(table, columns, allParts, k - 1);
      var prev := InsertActions(table, columns, allParts, k - 1);
      var block := PartlyInsertActions(table, columns, allParts, PartlyInsert(k - 1));
      forall m | 0 <= m < 4 ensures IsTaskAction(block[m]) { }
      var r := prev + block;
      forall m | 0 <= m < 4 * k ensures IsTaskAction(r[m]) {
        if m >= 4 * (k - 1) {
          assert r[m] == block[m - 4 * (k - 1)];
        }
      }
    }
  }

  /** Block `i` of four actions is task `i`'s. */
  lemma {:induction false} InsertActionsBlock<V>(table: string, columns: seq<string>,
                                                 allParts: seq<seq<Row<V>>>, k: nat, i: nat)
    requires i < k <= |allParts|
    ensures |InsertActions(table, columns, allParts, k)| == 4 * k
    ensures InsertActions(table, columns, allParts, k)[4 * i..4 * i + 4] ==
      PartlyInsertActions(table, columns, allParts, PartlyInsert(i))
  {
    InsertActionsKinds(table, columns, allParts, k);
    InsertActionsKinds(table, columns, allParts, k - 1);
    var prev := InsertActions(table, columns, allParts, k - 1);
    var r := InsertActions(table, columns, allParts, k);
    if i < k - 1 {
      InsertActionsBlock(table, columns, allParts, k - 1, i);
      assert r[4 * i..4 * i + 4] == prev[4 * i..4 * i + 4];
    }
  }

  /** A non-positive partition count: the bootstrap has already run when
      `np.array_split` raises, so nothing else happens. */
  lemma PlanRejectsPartitions<V>(frame: Frame<V>, table: string, index: seq<string>, partitions: int)
    requires partitions <= 0
    ensures Plan(frame, table, index, partitions) ==
      Run([Bootstrap(table, frame.columns)], Some(Partition.SectionsError))
  {
  }

  /** The slices a positive partition count produces from the filled rows. */
  function Parts<V>(frame: Frame<V>, partitions: int): (parts: seq<seq<Row<V>>>)
    requires partitions > 0
    ensures |parts| == partitions
  {
    Partition.ArraySplitSizes(FillNa(frame).rows, partitions);
    Partition.ArraySplit(FillNa(frame).rows, partitions).value
  }

  /** `Plan` with a positive partition count, unfolded: a helper for the
      lemmas below. */
  lemma PlanCompletes<V>(frame: Frame<V>, table: string, index: seq<string>, partitions: int)
    requires partitions > 0
    ensures Plan(frame, table, index, partitions) ==
      Run([Bootstrap(table, frame.columns)] + Writes(FillNa(frame), table, Parts(frame, partitions)) +
          IndexActions(table, index), None)
  {
  }

  /** The writes never bootstrap, and only a Series writes directly. */
  lemma WritesKinds<V>(filled: Frame<V>, table: string,
                       allParts: seq<seq<Row<V>>>)
    ensures filled.kind.DataFrame? ==>
      |Writes(filled, table, allParts)| == 4 * |allParts| &&
      forall m :: 0 <= m < 4 * |allParts| ==> IsTaskAction(Writes(filled, table, allParts)[m])
    ensures filled.kind.Series? ==> Writes(filled, table, allParts) == [DirectToSql(table, filled)]
  {
    if filled.kind.DataFrame? {
      InsertActionsKinds(table, filled.columns, allParts, |allParts|);
    }
  }

  /** The bootstrap comes first and happens once, before any insert. */
  lemma PlanBootstrapsFirst<V>(frame: Frame<V>, table: string, index: seq<string>, partitions: int)
    ensures var r := Plan(frame, table, index, partitions);
      |r.actions| > 0 && r.actions[0] == Bootstrap(table, frame.columns) &&
      forall m :: 0 < m < |r.actions| ==> !r.actions[m].Bootstrap?
  {
    if partitions > 0 {
      PlanCompletes(frame, table, index, partitions);
      var w := Writes(FillNa(frame), table, Parts(frame, partitions));
      WritesKinds(FillNa(frame), table, Parts(frame, partitions));
      var r := Plan(frame, table, index, partitions);
      forall m | 0 < m < |r.actions| ensures !r.actions[m].Bootstrap? {
        if m <= |w| {
          assert r.actions[m] == w[m - 1];
        }
      }
    }
  }

  /** A DataFrame with a positive partition count: after the bootstrap come
      exactly `partitions` blocks, block `i` executing the INSERT of slice `i`
      of the filled rows, then the index actions. */
  lemma PlanDataFrame<V>(frame: Frame<V>, table: string, index: seq<string>, partitions: int, i: int)
    requires frame.kind.DataFrame? && 0 <= i < partitions
    ensures var r := Plan(frame, table, index, partitions);
      r.raised.None? &&
      |r.actions| == 1 + 4 * partitions + |IndexActions<V>(table, index)| &&
      r.actions[1 + 4 * i..5 + 4 * i] ==
        [Connect, Execute(InsertRows(table, frame.columns, Parts(frame, partitions)[i])), Commit, Close] &&
      r.actions[1 + 4 * partitions..] == IndexActions(table, index)
  {
    PlanCompletes(frame, table, index, partitions);
    var parts := Parts(frame, partitions);
    var filled := FillNa(frame);
    InsertActionsBlock(table, filled.columns, parts, partitions, i);
    var w := Writes(filled, table, parts);
    SliceAfterHead([Bootstrap(table, frame.columns)], w, IndexActions(table, index), 4 * i, 4 * i + 4);
  }

  /** Slicing `[a] + w + t` inside `w`, and after it. */
  lemma SliceAfterHead<T>(head: seq<T>, w: seq<T>, t: seq<T>, lo: nat, hi: nat)
    requires |head| == 1 && lo <= hi <= |w|
    ensures (head + w + t)[1 + lo..1 + hi] == w[lo..hi]
    ensures (head + w + t)[1 + |w|..] == t
  {
  }

  /** A Series: no partition insert is executed; the one write is a direct
      `to_sql` of the filled series, and the only executed statement is the
      index statement, if any. */
  lemma PlanSeries<V>(frame: Frame<V>, table: string, index: seq<string>, partitions: int)
    requires frame.kind.Series? && partitions > 0
    ensures var r := Plan(frame, table, index, partitions);
      r.raised.None? &&
      r.actions == [Bootstrap(table, frame.columns), DirectToSql(table, FillNa(frame))] + IndexActions(table, index) &&
      forall m :: 0 <= m < |r.actions| && r.actions[m].Execute? ==> r.actions[m].statement == AddIndexOn(table, index)
  {
    PlanCompletes(frame, table, index, partitions);
  }

  /** The index statement is executed iff index columns were given, exactly
      once, and it is the last statement (only `close` follows it). */
  lemma PlanIndexLast<V>(frame: Frame<V>, table: string, index: seq<string>, partitions: int)
    requires partitions > 0
    ensures var r := Plan(frame, table, index, partitions);
      ((exists m :: 0 <= m < |r.actions| && r.actions[m] == Execute(AddIndexOn(table, index))) <==> |index| > 0) &&
      forall m :: 0 <= m < |r.actions| && r.actions[m] == Execute(AddIndexOn(table, index)) ==>
        m == |r.actions| - 2 && r.actions[m + 1] == Close
  {
    PlanCompletes(frame, table, index, partitions);
    var filled := FillNa(frame);
    var w := Writes(filled, table, Parts(frame, partitions));
    WritesKinds(filled, table, Parts(frame, partitions));
    var r := Plan(frame, table, index, partitions);
    var stmt := AddIndexOn(table, index);
    forall m | 0 < m <= |w| ensures r.actions[m] == w[m - 1] && r.actions[m] != Execute(stmt) { }
    if |index| > 0 {
      assert r.actions[|r.actions| - 2] == Execute(stmt);
    }
  }

  /** Task `i` depends on slice `i` only. */
  lemma TaskReadsOnlyItsPart<V>(table: string, columns: seq<string>,
                                parts: seq<seq<Row<V>>>, other: seq<seq<Row<V>>>, i: nat)
    requires i < |parts| && i < |other| && parts[i] == other[i]
    ensures PartlyInsertActions(table, columns, parts, PartlyInsert(i)) ==
            PartlyInsertActions(table, columns, other, PartlyInsert(i))
  {
  }

  /** The rows an action sends with an INSERT, if it executes one. */
  function Inserts<V>(a: Action<V>): seq<seq<Row<V>>>
  {
    if a.Execute? && a.statement.InsertRows? then [a.statement.rows] else []
  }

  /** The row lists of the INSERTs among `actions`, in the order they are
      executed. */
  function InsertedParts<V>(actions: seq<Action<V>>): seq<seq<Row<V>>>
    decreases |actions|
  {
    if |actions| == 0 then [] else Inserts(actions[0]) + InsertedParts(actions[1..])
  }

  lemma {:induction false} InsertedPartsAppend<V>(a: seq<Action<V>>, b: seq<Action<V>>)
    ensures InsertedParts(a + b) == InsertedParts(a) + InsertedParts(b)
    decreases |a|
  {
    if |a| == 0 {
      assert a + b == b;
    } else {
      assert (a + b)[0] == a[0];
      assert (a + b)[1..] == a[1..] + b;
      InsertedPartsAppend(a[1..], b);
    }
  }

  /** Tasks `0 .. k - 1` insert slices `0 .. k - 1`, in order. */
  lemma {:induction false} InsertActionsParts<V>(table: string, columns: seq<string>,
                                                 allParts: seq<seq<Row<V>>>, k: nat)
    requires k <= |allParts|
    ensures InsertedParts(InsertActions(table, columns, allParts, k)) == allParts[..k]
  {
    if k > 0 {
      var prev := InsertActions(table, columns, allParts, k - 1);
      var block := PartlyInsertActions(table, columns, allParts, PartlyInsert(k - 1));
      assert InsertActions(table, columns, allParts, k) == prev + block;
      assert block == [Connect, Execute(InsertRows(table, columns, allParts[k - 1])), Commit, Close];
      InsertActionsParts(table, columns, allParts, k - 1);
      AppendTaskBlock(prev, InsertRows(table, columns, allParts[k - 1]));
      assert allParts[..k] == allParts[..k - 1] + [allParts[k - 1]];
    }
  }

  /** The INSERTs among three or four actions around one executed statement. */
  lemma BlockInserts<V>(a: Action<V>, st: Statement<V>, c: Action<V>, d: Action<V>)
    requires !a.Execute? && !c.Execute? && !d.Execute?
    ensures InsertedParts([a, Execute(st), c, d]) == if st.InsertRows? then [st.rows] else []
    ensures InsertedParts([a, Execute(st), c]) == if st.InsertRows? then [st.rows] else []
  {
    var e := Execute(st);
    assert [d][1..] == [];
    assert InsertedParts([d]) == [];
    assert [c, d][1..] == [d];
    assert InsertedParts([c, d]) == [];
    assert [e, c, d][1..] == [c, d];
    assert InsertedParts([e, c, d]) == Inserts(e);
    assert [a, e, c, d][1..] == [e, c, d];
    assert [c][1..] == [];
    assert InsertedParts([c]) == [];
    assert [e, c][1..] == [c];
    assert InsertedParts([e, c]) == Inserts(e);
    assert [a, e, c][1..] == [e, c];
  }

  /** One more task block after `prev` adds its INSERT's rows. */
  lemma AppendTaskBlock<V>(prev: seq<Action<V>>, st: Statement<V>)
    requires st.InsertRows?
    ensures InsertedParts(prev + [Connect, Execute(st), Commit, Close]) == InsertedParts(prev) + [st.rows]
  {
    InsertedPartsAppend(prev, [Connect, Execute(st), Commit, Close]);
    BlockInserts(Connect, st, Commit, Close);
  }

  /** A DataFrame load executes one INSERT per slice, in partition order, and
      a Series load none. */
  lemma PlanInsertedParts<V>(frame: Frame<V>, table: string, index: seq<string>, partitions: int)
    requires partitions > 0
    ensures frame.kind.Series? ==> InsertedParts(Plan(frame, table, index, partitions).actions) == []
    ensures frame.kind.DataFrame? ==>
      InsertedParts(Plan(frame, table, index, partitions).actions) == Parts(frame, partitions)
  {
    PlanCompletes(frame, table, index, partitions);
    var filled := FillNa(frame);
    var parts := Parts(frame, partitions);
    var w := Writes(filled, table, parts);
    var ia := IndexActions<V>(table, index);
    InsertedPartsAppend([Bootstrap(table, frame.columns)] + w, ia);
    InsertedPartsAppend([Bootstrap(table, frame.columns)], w);
    assert InsertedParts<V>([Bootstrap(table, frame.columns)]) == [];
    if |index| > 0 {
      BlockInserts<V>(Connect, AddIndexOn(table, index), Close, Close);
    }
    if frame.kind.DataFrame? {
      InsertActionsParts(table, filled.columns, parts, |parts|);
      assert parts[..|parts|] == parts;
    } else {
      assert InsertedParts(w) == [];
    }
  }

  /** Across the INSERTs a DataFrame load executes, the non-empty VALUES
      clauses, in execution order and joined by ", ", are the VALUES clause
      of the whole filled frame: every row is sent exactly once and in
      order, with every missing cell already replaced by the string "NULL". */
  lemma PlanSendsEveryRowOnce<V>(frame: Frame<V>, table: string, index: seq<string>, partitions: int,
                                 render: Cell<V> -> string)
    requires frame.kind.DataFrame? && partitions > 0
    ensures var sent := InsertedParts(Plan(frame, table, index, partitions).actions);
      Join(", ", NonEmpty(Clauses(render, |frame.columns|, sent))) ==
        ValuesClause(render, |frame.columns|, FillNa(frame).rows)
  {
    PlanInsertedParts(frame, table, index, partitions);
    Partition.ArraySplitConcat(FillNa(frame).rows, partitions);
    ClausesCoverRows(render, |frame.columns|, Parts(frame, partitions));
  }

  /** More partitions than rows: the slices past the row count are empty, so
      their tasks execute an INSERT with nothing after VALUES. */
  lemma PlanEmptyTrailingInserts<V>(frame: Frame<V>, table: string, partitions: int,
                                    render: Cell<V> -> string, i: int)
    requires partitions > |frame.rows| && |frame.rows| <= i < partitions
    ensures Parts(frame, partitions)[i] == []
    ensures InsertSql(table, frame.columns, render, Parts(frame, partitions)[i]) ==
      InsertHead + table + "(" + ColumnList(frame.columns) + ValuesKeyword
  {
    var rows := FillNa(frame).rows;
    Partition.ArraySplitMoreSectionsThanRows(rows, partitions);
  }

  /** A well-formed frame's slices have one cell per column in every row. */
  lemma PartsWellFormed<V>(frame: Frame<V>, partitions: int)
    requires WellFormed(frame) && partitions > 0
    ensures forall i, j :: 0 <= i < partitions && 0 <= j < |Parts(frame, partitions)[i]| ==>
      |Parts(frame, partitions)[i][j]| == |frame.columns|
  {
    var filled := FillNa(frame);
    FillNaCells(frame);
    var parts := Parts(frame, partitions);
    var n := |filled.rows|;
    forall i, j | 0 <= i < partitions && 0 <= j < |parts[i]|
      ensures |parts[i][j]| == |frame.columns|
    {
      var lo, hi := Partition.Point(n, partitions, i), Partition.Point(n, partitions, i + 1);
      assert parts[i] == filled.rows[lo..hi];
      Partition.StartMonotone(n / partitions, n % partitions, i, i + 1);
      assert parts[i][j] == filled.rows[lo + j];
    }
  }

  /** Every statement a load executes is an INSERT or its own index statement. */
  lemma PlanStatements<V>(frame: Frame<V>, table: string, index: seq<string>, partitions: int)
    requires partitions > 0
    ensures var r := Plan(frame, table, index, partitions);
      forall m :: 0 <= m < |r.actions| && r.actions[m].Execute? ==>
        r.actions[m].statement.InsertRows? || r.actions[m].statement == AddIndexOn(table, index)
  {
    PlanCompletes(frame, table, index, partitions);
    var filled := FillNa(frame);
    var w := Writes(filled, table, Parts(frame, partitions));
    WritesKinds(filled, table, Parts(frame, partitions));
    var r := Plan(frame, table, index, partitions);
    forall m | 0 < m <= |w| ensures r.actions[m] == w[m - 1] { }
  }

  /** Read as the text handed to `cursor.execute`: the ALTER TABLE text is
      executed iff index columns were given, and only as the last statement,
      since no INSERT's text can equal it. */
  lemma PlanIndexTextLast<V>(frame: Frame<V>, table: string, index: seq<string>, partitions: int,
                             render: Cell<V> -> string)
    requires partitions > 0
    ensures var r := Plan(frame, table, index, partitions);
      ((exists m :: 0 <= m < |r.actions| && r.actions[m].Execute? &&
          StatementText(render, r.actions[m].statement) == IndexSql(table, index)) <==> |index| > 0) &&
      forall m :: (0 <= m < |r.actions| && r.actions[m].Execute? &&
                   StatementText(render, r.actions[m].statement) == IndexSql(table, index)) ==>
        m == |r.actions| - 2
  {
    PlanIndexLast(frame, table, index, partitions);
    PlanStatements(frame, table, index, partitions);
    var r := Plan(frame, table, index, partitions);
    forall m | 0 <= m < |r.actions| && r.actions[m].Execute? &&
               StatementText(render, r.actions[m].statement) == IndexSql(table, index)
      ensures r.actions[m] == Execute(AddIndexOn(table, index))
    {
      var st := r.actions[m].statement;
      if st.InsertRows? {
        InsertIsNotIndex(st.table, st.columns, render, st.rows, table, index);
      }
    }
    if |index| > 0 {
      var m :| 0 <= m < |r.actions| && r.actions[m] == Execute(AddIndexOn(table, index));
      assert StatementText(render, r.actions[m].statement) == IndexSql(table, index);
    }
  }

}
