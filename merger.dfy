/**
 * The merge of etl_pipeline.py line 41:
 * `pd.concat([messages, categories], axis=1, join="inner")`. Both frames
 * carry the default row labels 0..n-1, so the inner join on labels pairs
 * rows by position and keeps the positions both frames have. No id column
 * takes part.
 */
module Merger {
  import opened Tables

  function Min(a: nat, b: nat): nat
  {
    if a <= b then a else b
  }

  /** Row i of the result is row i of `left` followed by row i of `right`,
      for every position present in both. */
  function ConcatRows(left: seq<Row>, right: seq<Row>): (r: seq<Row>)
    ensures |r| == Min(|left|, |right|)
    ensures forall i :: 0 <= i < |r| ==> r[i] == left[i] + right[i]
  {
    if left == [] || right == [] then []
    else [left[0] + right[0]] + ConcatRows(left[1..], right[1..])
  }

  /** Line 41: the columns of both frames side by side, rows paired by position. */
  function Merge(messages: Frame, categories: Frame): (merged: Frame)
    requires WellFormed(messages) && WellFormed(categories)
    ensures WellFormed(merged)
    ensures merged.columns == messages.columns + categories.columns
    ensures |merged.rows| == Min(|messages.rows|, |categories.rows|)
  {
    Frame(messages.columns + categories.columns,
          ConcatRows(messages.rows, categories.rows))
  }

  /** Every merged row splits back, at the width of the message frame, into
      the message row and the category row of the same position. */
  lemma MergeSplitsBack(messages: Frame, categories: Frame, i: nat)
    requires WellFormed(messages) && WellFormed(categories)
    requires i < |messages.rows| && i < |categories.rows|
    ensures i < |Merge(messages, categories).rows|
    ensures Merge(messages, categories).rows[i][..|messages.columns|] == messages.rows[i]
    ensures Merge(messages, categories).rows[i][|messages.columns|..] == categories.rows[i]
  {
    var row := Merge(messages, categories).rows[i];
    assert row == messages.rows[i] + categories.rows[i];
  }
}
