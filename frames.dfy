/**
 * The tabular data the loader receives: a pandas DataFrame or Series, as a
 * list of column names and rows of cells in column order, and the
 * `fillna('NULL')` step that precedes partitioning.
 */
module Frames {

  /** One cell. `Str` is a Python `str`; `Val` is any other non-missing
      scalar, left uninterpreted; `Null` is a missing value (NaN, None). */
  datatype Cell<V> = Null | Str(s: string) | Val(v: V)

  type Row<V> = seq<Cell<V>>

  /** `type(dataframe) != pd.Series` decides the write path. */
  datatype Kind = DataFrame | Series

  datatype Frame<V> = Frame(kind: Kind, columns: seq<string>, rows: seq<Row<V>>)

  /** Every row has one cell per column, as in any pandas frame. */
  predicate WellFormed<V>(f: Frame<V>)
  {
    forall i :: 0 <= i < |f.rows| ==> |f.rows[i]| == |f.columns|
  }

  /** The text `fillna` writes into a missing cell: the Python string
      'NULL', not an SQL NULL. */
  const NullText: string := "NULL"

  predicate NoNulls<V>(f: Frame<V>)
  {
    forall i, j :: 0 <= i < |f.rows| && 0 <= j < |f.rows[i]| ==> !f.rows[i][j].Null?
  }

  function FillCell<V>(c: Cell<V>): Cell<V>
  {
    if c.Null? then Str(NullText) else c
  }

  /** `dataframe.fillna('NULL')`. */
  function FillNa<V>(f: Frame<V>): (g: Frame<V>)
    ensures g.kind == f.kind && g.columns == f.columns && |g.rows| == |f.rows|
  {
    f.(rows := seq(|f.rows|, i requires 0 <= i < |f.rows| =>
                     seq(|f.rows[i]|, j requires 0 <= j < |f.rows[i]| => FillCell(f.rows[i][j]))))
  }

  /** After the fill no cell is missing, every missing cell holds the string
      "NULL" and every other cell is unchanged; rows keep their widths. */
  lemma FillNaCells<V>(f: Frame<V>)
    ensures forall i :: 0 <= i < |f.rows| ==> |FillNa(f).rows[i]| == |f.rows[i]|
    ensures forall i, j :: 0 <= i < |f.rows| && 0 <= j < |f.rows[i]| && f.rows[i][j].Null? ==>
      FillNa(f).rows[i][j] == Str(NullText)
    ensures forall i, j :: 0 <= i < |f.rows| && 0 <= j < |f.rows[i]| && !f.rows[i][j].Null? ==>
      FillNa(f).rows[i][j] == f.rows[i][j]
    ensures NoNulls(FillNa(f))
    ensures WellFormed(f) ==> WellFormed(FillNa(f))
  {
  }

  /** Filling a frame that has no missing cells changes nothing; in
      particular filling twice is filling once. */
  lemma FillNaIdempotent<V>(f: Frame<V>)
    ensures NoNulls(f) ==> FillNa(f) == f
    ensures FillNa(FillNa(f)) == FillNa(f)
  {
    var g := FillNa(f);
    if NoNulls(f) {
      forall i | 0 <= i < |f.rows| ensures g.rows[i] == f.rows[i] { }
      assert g.rows == f.rows;
    }
    var h := FillNa(g);
    forall i | 0 <= i < |g.rows| ensures h.rows[i] == g.rows[i] { }
    assert h.rows == g.rows;
  }
}
