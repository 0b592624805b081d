# p_to_sql: a Dafny model of the multi-connection MySQL bulk loader

`p_to_sql(dataframe, table_name, con, index, partitions, ...)` writes a pandas
DataFrame into a MySQL table. The steps, in order:

1. It bootstraps the table with a zero-row `to_sql(if_exists='append', index=False)`.
2. It fills every missing cell with the Python string `'NULL'`.
3. It cuts the rows into `partitions` contiguous slices with `np.array_split`.
4. It builds one deferred `partly_insert` task per slice index.
5. For a DataFrame it runs every task. Each task opens its own connection,
   executes one multi-row `insert into`, commits and closes. For a Series it
   makes one direct `to_sql` call instead.
6. If index columns were given, it opens one more connection, executes
   `ALTER TABLE ... ADD INDEX` and closes.

The model has six modules:

- `Wrappers` (wrappers.dfy): `Option` and `Result`.
- `PyText` (pytext.dfy): the Python string behaviour the SQL text uses.
  This is `str.join`, `str.strip`/`lstrip`/`rstrip` with one character, and
  the `repr` of a list and of a tuple (with the 1-tuple's trailing comma).
- `Frames` (frames.dfy): frames, cells and `fillna('NULL')`.
- `Partition` (partition.dfy): `np.array_split` with an integer section count.
  This covers numpy's `divmod` sizes, the cumulative division points and the
  `ValueError` for a non-positive count.
- `SqlText` (sqltext.dfy): the text `partly_insert` builds, including the
  whitespace left by the f-string's backslash-newline continuations, and the
  `ALTER TABLE` text.
- `Loader` (loader.dfy): the whole call as an ordered list of actions. The
  function `Plan` states it. Two methods build it with the source's loops:
  `ScheduleTasks` (the loop that builds the list of deferred `partly_insert` calls) and `PToSql` (the whole call).

How a single scalar is rendered (Python/numpy `repr`) is library behaviour, so
it stays abstract: it is the parameter `render: Cell<V> -> string`. Non-string
scalars are an uninterpreted type `V`. The model fixes only the tuple and list
syntax around the rendered scalars, and the fact that a filled cell is the
*string* `"NULL"`. This means the statement carries the quoted text `'NULL'`,
not an SQL NULL.

What the code does not do:

- The code does not clamp `partitions` to the row count. Extra slices are
  empty, and their INSERT has nothing after `values`.
- The code has no failure aggregation and catches nothing. A failed insert
  raises out of `compute`, so no index is created. Database failures are not
  modelled.
- The code does not close a connection when a call raises.
- The code does not skip empty slices.
- The code executes the index statement with no commit.

Three consequences of the code as written:

- An empty slice yields ``insert into    t(`a`)    values        ``.
- A frame with no columns yields ``insert into    t(``)    values        ``
  however many rows it has. `itertuples` zips one array per column, so it
  yields no tuples.
- A one-column frame renders every row as `(x,)`.

The model states the text. Whether MySQL accepts it is not modelled (see
below).

## Model

| member | source | states |
|---|---|---|
| `Frames.FillNa` | sample/LLM_complete/utils/p_to_sql.py:26 | the filled frame keeps its kind, columns and row count |
| `Frames.FillNaCells` | sample/LLM_complete/utils/p_to_sql.py:26 | after the fill no cell is missing; each missing cell holds the string "NULL"; every other cell is unchanged; rows keep their width |
| `Frames.FillNaIdempotent` | sample/LLM_complete/utils/p_to_sql.py:26 | filling a frame without missing cells changes nothing, so filling twice equals filling once |
| `SqlText.FilledCellRendering` | sample/LLM_complete/utils/p_to_sql.py:26 | in a filled row, a cell that was missing is rendered as the string "NULL" and every other cell as itself |
| `Partition.ArraySplit` | sample/LLM_complete/utils/p_to_sql.py:27 | the split fails with numpy's ValueError exactly when the section count is not positive |
| `Partition.Point` | sample/LLM_complete/utils/p_to_sql.py:27 | every division point lies within the rows and the last one is the row count |
| `Partition.StartClosed` | sample/LLM_complete/utils/p_to_sql.py:27 | the cumulative sum of the slice sizes before slice i is i*(n/p) plus min(i, n%p) |
| `Partition.ArraySplitSizes` | sample/LLM_complete/utils/p_to_sql.py:27 | there are exactly p slices; slice i has n/p+1 rows if i < n%p and n/p otherwise; sizes differ by at most one, larger first |
| `Partition.ArraySplitConcat` | sample/LLM_complete/utils/p_to_sql.py:27 | the slices concatenated in order are exactly the input rows: nothing lost, repeated or reordered |
| `Partition.ArraySplitMoreSectionsThanRows` | sample/LLM_complete/utils/p_to_sql.py:27 | with more sections than rows, slice i is the single row i for i < n, and every later slice is empty |
| `PyText.JoinAt` | sample/LLM_complete/utils/p_to_sql.py:40 | in sep.join(xs), item i sits at its offset and is followed by exactly one separator unless it is last |
| `PyText.JoinLength` | sample/LLM_complete/utils/p_to_sql.py:40 | the joined text ends right after the last item, so with JoinAt every character is accounted for |
| `SqlText.ColumnListQuotesEach` | sample/LLM_complete/utils/p_to_sql.py:40 | the column list is every column in frame order, each in its own backticks, separated by ", "; with no columns it is a bare pair of backticks |
| `PyText.TupleRepr` | sample/LLM_complete/utils/p_to_sql.py:42 | a tuple's repr starts with "(" and ends with ")" |
| `PyText.LStrip` | sample/LLM_complete/utils/p_to_sql.py:42 | lstrip(c) returns the suffix left after removing every leading c, and that suffix does not start with c |
| `PyText.RStrip` | sample/LLM_complete/utils/p_to_sql.py:42 | rstrip(c) returns the prefix left after removing every trailing c, and that prefix does not end with c |
| `PyText.StripOuterBrackets` | sample/LLM_complete/utils/p_to_sql.py:42 | .strip('[').strip(']') removes exactly the list's outer brackets when the body neither starts with a bracket nor ends with "]"; "[]" becomes "" |
| `SqlText.RowTuplesAt` | sample/LLM_complete/utils/p_to_sql.py:42 | with at least one column, tuple k is the tuple repr of row k's rendered cells, in column order |
| `SqlText.ValuesClauseJoinsTuples` | sample/LLM_complete/utils/p_to_sql.py:42 | the VALUES clause is the slice's row tuples in row order joined by ", ", with no brackets; it is empty exactly when the slice has no rows or no columns (a slice without columns yields no tuples) |
| `SqlText.InsertSql` | sample/LLM_complete/utils/p_to_sql.py:39-42 | with columns, the INSERT is "insert into", the unquoted table, each column in its own backticks joined by ", ", "values" and the row tuples joined by ", ", with the continuation whitespace; with no rows or no columns nothing follows "values" |
| `SqlText.ValuesClauseAppend` | sample/LLM_complete/utils/p_to_sql.py:42 | the VALUES clause of two non-empty row lists placed end to end is their two clauses joined by ", "; with no columns it is empty |
| `SqlText.ClausesCoverRows` | sample/LLM_complete/utils/p_to_sql.py:42 | for any slices, the non-empty VALUES clauses in slice order, joined by ", ", equal the VALUES clause of the slices' concatenation |
| `SqlText.IndexSqlListsColumns` | sample/LLM_complete/utils/p_to_sql.py:66 | in the ALTER TABLE text each index column appears bare, in order, at its offset after "ADD INDEX (" |
| `SqlText.InsertIsNotIndex` | sample/LLM_complete/utils/p_to_sql.py:66 | an INSERT text is never the ALTER TABLE text |
| `Loader.ScheduleTasks` | sample/LLM_complete/utils/p_to_sql.py:49-52 | one task per partition index 0..partitions-1 in order, and none for a non-positive count |
| `Loader.Plan` | sample/LLM_complete/utils/p_to_sql.py:25-67 | the call always starts with the bootstrap; it raises exactly when the partition count is not positive, and then it raises numpy's ValueError with the bootstrap as its only action |
| `Loader.PToSql` | sample/LLM_complete/utils/p_to_sql.py:25-67 | the step-by-step loader performs exactly the actions of Plan and raises what Plan raises |
| `Loader.PlanRejectsPartitions` | sample/LLM_complete/utils/p_to_sql.py:25-27 | a non-positive partition count raises numpy's ValueError after the bootstrap, and nothing else happens |
| `Loader.PlanBootstrapsFirst` | sample/LLM_complete/utils/p_to_sql.py:25 | the zero-row bootstrap is the first action and never recurs, so it precedes every insert |
| `Loader.WritesKinds` | sample/LLM_complete/utils/p_to_sql.py:54-60 | a DataFrame's writes are 4 task actions per slice (connect, commit, close, or an INSERT); a Series' only write is one direct to_sql |
| `Loader.InsertActionsBlock` | sample/LLM_complete/utils/p_to_sql.py:51-56 | the i-th block of four task actions is exactly task i's connect, execute INSERT of slice i, commit and close |
| `Loader.PlanDataFrame` | sample/LLM_complete/utils/p_to_sql.py:29-56 | for a DataFrame the actions are the bootstrap, `partitions` blocks with block i executing the INSERT of filled slice i, then the index actions |
| `Loader.PlanSeries` | sample/LLM_complete/utils/p_to_sql.py:54-60 | for a Series no partition insert runs: the actions are the bootstrap, one direct to_sql of the filled series, then the index actions |
| `Loader.PlanIndexLast` | sample/LLM_complete/utils/p_to_sql.py:62-67 | the ALTER TABLE is executed iff index columns were given, exactly once, as the last statement, followed only by close |
| `Loader.PlanStatements` | sample/LLM_complete/utils/p_to_sql.py:44-66 | every statement a load executes is a partition INSERT or the ALTER TABLE for the same table and index columns |
| `Loader.PlanIndexTextLast` | sample/LLM_complete/utils/p_to_sql.py:62-67 | read as the texts handed to `cursor.execute`, the ALTER TABLE text is executed iff index columns were given, and only as the last statement: no INSERT text equals it |
| `Loader.TaskReadsOnlyItsPart` | sample/LLM_complete/utils/p_to_sql.py:36 | task i's actions depend on all_parts[i] and on no other slice |
| `Loader.PartsWellFormed` | sample/LLM_complete/utils/p_to_sql.py:26-27 | in a frame with one cell per column, every row of every slice still has one cell per column after the fill and the split |
| `Loader.InsertActionsParts` | sample/LLM_complete/utils/p_to_sql.py:36-44 | the INSERTs of tasks 0..k-1, in execution order, send exactly slices 0..k-1 |
| `Loader.PlanInsertedParts` | sample/LLM_complete/utils/p_to_sql.py:27-60 | a DataFrame load's executed INSERTs send exactly the slices of the filled rows, one per partition in order; a Series load executes no INSERT |
| `Loader.PlanSendsEveryRowOnce` | sample/LLM_complete/utils/p_to_sql.py:26-56 | for a DataFrame, the non-empty VALUES clauses of the INSERTs the load executes, in execution order and joined by ", ", are the VALUES clause of the whole filled frame |
| `Loader.PlanEmptyTrailingInserts` | sample/LLM_complete/utils/p_to_sql.py:27-42 | with more partitions than rows, each slice past the row count is empty and its task's INSERT has nothing after "values" |

## Left out

- MySQLdb `connect`, `cursor`, `execute`, `commit` and `close` are database I/O. Each call is an action in the plan, with no other effect. The connection parameters (`con.url.*`, `charset='utf8'`) are not recorded.
- The database's answers are not modelled. The plan lists the actions of a call in which every database call returns. In the source, an exception from any call propagates: from `compute` for the inserts, and directly for the bootstrap and the index statement. Nothing closes a connection on that path. Whether MySQL accepts an empty VALUES clause or a one-column tuple `(x,)` is the server's business.
- dask `delayed`/`compute` and `n_workers`/`threads_per_worker` are concurrency. The model runs the tasks one after the other in partition order. The source sets no order among tasks, so this is one possible order, not a promise.
- `DataFrame.to_sql` and `Series.to_sql` are a foreign library. The bootstrap and the Series write are opaque actions. How pandas creates the table, what `to_sql_kargs` are passed, and whether the default `if_exists` of the Series write clashes with the table the bootstrap made are not modelled.
- Python/numpy `repr` of a scalar is library behaviour. It is the parameter `render`.
- The monkey-patch `pd.DataFrame.p_to_sql = p_to_sql` (line 70) is a dynamic-language mechanism with no behaviour to state.
- `Frames.FillNa` always succeeds, because the model has no column dtypes. In pandas, `fillna('NULL')` raises TypeError for a column that cannot hold the string `'NULL'`: a categorical column with a missing value and no `'NULL'` category, or a nullable `Int64` or `boolean` column holding `pd.NA`. The call then ends with that TypeError after the bootstrap and before `np.array_split`. This error path is not modelled, so `Loader.Plan` raises only numpy's ValueError.
- `Partition.ArraySplit` models only an integer section count. The list-of-indices form of `np.array_split` is not used by the loader.
- `index` is a list of column names. An empty list stands for both `[]` and the default `False`, which are both falsy. Other truthy values are not modelled. `", ".join` accepts any iterable of strings: a `str` such as `'id'` is joined character by character, giving `ADD INDEX (i, d)`. A non-iterable value, or an iterable with a non-`str` item such as `[1]`, makes it raise TypeError, after the writes have finished; neither is modelled.
- Column names are strings. A non-string column name would make `'`, `'.join` raise; this is not modelled.
- sample/LLM_complete/settings/database.py (engine configuration and credentials) and sample/LLM_complete/script.py (a demo driver with random data) are not part of this model.
