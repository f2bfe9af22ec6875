/**
 * The table representation shared by the pipeline stages: a data frame is a
 * list of column names and a list of rows, each row a list of cell strings
 * in column order. Row labels are not stored. The two loaded frames carry
 * the default labels 0..n-1, so in the merge a row's label is its position.
 * The deduplicated frame keeps the labels of its surviving rows, which the
 * database write of line 85 discards (`index=False`).
 */
module Tables {

  type Row = seq<string>

  datatype Frame = Frame(columns: seq<string>, rows: seq<Row>)

  /** Every row has one cell per column. */
  predicate WellFormed(f: Frame)
  {
    forall i :: 0 <= i < |f.rows| ==> |f.rows[i]| == |f.columns|
  }

  /** Why a run stops before producing a table. */
  datatype Error =
      /** `categories.iloc[0]` on a table without rows raises IndexError. */
      NoCategoryRows

  datatype Result<T> = Ok(value: T) | Err(error: Error)
}
