/**
 * The deduplication of etl_pipeline.py lines 70-79: `drop_duplicates()`
 * removes every row equal, across all columns, to an earlier row, and the
 * script reports how many rows that removed.
 */
module Deduplicator {
  import opened Tables

  /** No two rows are equal. */
  predicate NoDuplicates(rows: seq<Row>)
  {
    forall i, j :: 0 <= i < j < |rows| ==> rows[i] != rows[j]
  }

  /**
   * Line 70: the rows in order, each row dropped when an equal row came
   * earlier. Stated row by row from the last row backwards, the last row is
   * kept exactly when it does not occur among the rows before it.
   */
  function DropDuplicates(rows: seq<Row>): (kept: seq<Row>)
    ensures |kept| <= |rows|
    ensures NoDuplicates(kept)
    ensures forall x :: x in kept <==> x in rows
  {
    if rows == [] then []
    else
      var prefix, last := rows[..|rows| - 1], rows[|rows| - 1];
      assert rows == prefix + [last];
      if last in prefix then DropDuplicates(prefix)
      else DropDuplicates(prefix) + [last]
  }

  /** Line 70 on a whole frame: the columns stay, the rows are deduplicated. */
  function DropDuplicateRows(df: Frame): (r: Frame)
    requires WellFormed(df)
    ensures WellFormed(r) && r.columns == df.columns
    ensures r.rows == DropDuplicates(df.rows)
  {
    var rows := DropDuplicates(df.rows);
    assert forall i :: 0 <= i < |rows| ==> rows[i] in df.rows;
    Frame(df.columns, rows)
  }

  /** pandas `duplicated(keep="first")`: row i is flagged when an equal row
      occurs before it. */
  function Duplicated(rows: seq<Row>): (flags: seq<bool>)
    ensures |flags| == |rows|
  {
    seq(|rows|, i requires 0 <= i < |rows| => rows[i] in rows[..i])
  }

  /** The rows whose flag is not set, in order (pandas `rows[~flags]`). */
  function Unflagged(rows: seq<Row>, flags: seq<bool>): seq<Row>
    requires |flags| == |rows|
  {
    if rows == [] then []
    else
      var n := |rows| - 1;
      Unflagged(rows[..n], flags[..n]) + (if flags[n] then [] else [rows[n]])
  }

  /** Number of set flags. */
  function CountTrue(flags: seq<bool>): nat
  {
    if flags == [] then 0
    else CountTrue(flags[..|flags| - 1]) + (if flags[|flags| - 1] then 1 else 0)
  }

  /** The flags of a prefix are the prefix of the flags. */
  lemma DuplicatedPrefix(rows: seq<Row>, n: nat)
    requires n <= |rows|
    ensures Duplicated(rows)[..n] == Duplicated(rows[..n])
  {
    forall k | 0 <= k < n
      ensures Duplicated(rows)[k] == Duplicated(rows[..n])[k]
    {
      assert rows[..n][..k] == rows[..k];
    }
  }

  /** DropDuplicates is pandas' `rows[~rows.duplicated()]`. */
  lemma {:induction false} DropDuplicatesIsUnflagged(rows: seq<Row>)
    ensures DropDuplicates(rows) == Unflagged(rows, Duplicated(rows))
  {
    if rows != [] {
      var n := |rows| - 1;
      DropDuplicatesIsUnflagged(rows[..n]);
      DuplicatedPrefix(rows, n);
    }
  }

  /** Line 71: `len(df) - len(df_no_duplicates)`. */
  function DuplicateCount(rows: seq<Row>): (n: int)
    ensures 0 <= n <= |rows|
  {
    |rows| - |DropDuplicates(rows)|
  }

  /** The reported count is the number of rows pandas flags as duplicates. */
  lemma {:induction false} DuplicateCountIsFlagged(rows: seq<Row>)
    ensures DuplicateCount(rows) == CountTrue(Duplicated(rows))
  {
    if rows != [] {
      var n := |rows| - 1;
      DuplicateCountIsFlagged(rows[..n]);
      DuplicatedPrefix(rows, n);
    }
  }

  /** A table without duplicates is left as it is. */
  lemma {:induction false} DropDuplicatesOfDistinct(rows: seq<Row>)
    requires NoDuplicates(rows)
    ensures DropDuplicates(rows) == rows
  {
    if rows != [] {
      var n := |rows| - 1;
      var prefix := rows[..n];
      assert NoDuplicates(prefix);
      DropDuplicatesOfDistinct(prefix);
      assert rows[n] !in prefix;
      assert prefix + [rows[n]] == rows;
    }
  }

  /** Dropping duplicates twice removes nothing more. */
  lemma DropDuplicatesIdempotent(rows: seq<Row>)
    ensures DropDuplicates(DropDuplicates(rows)) == DropDuplicates(rows)
    ensures DuplicateCount(DropDuplicates(rows)) == 0
  {
    DropDuplicatesOfDistinct(DropDuplicates(rows));
  }

  /** The count is zero exactly when the table has no duplicates. */
  lemma {:induction false} DuplicateCountZero(rows: seq<Row>)
    ensures DuplicateCount(rows) >= 0
    ensures DuplicateCount(rows) == 0 <==> NoDuplicates(rows)
  {
    if NoDuplicates(rows) {
      DropDuplicatesOfDistinct(rows);
    } else {
      DuplicatesShrink(rows);
    }
  }

  /** A table with a duplicate loses at least one row. */
  lemma {:induction false} DuplicatesShrink(rows: seq<Row>)
    requires !NoDuplicates(rows)
    ensures |DropDuplicates(rows)| < |rows|
  {
    var n := |rows| - 1;
    var prefix := rows[..n];
    if rows[n] !in prefix {
      var i, j :| 0 <= i < j < |rows| && rows[i] == rows[j];
      assert prefix[i] == prefix[j];
      DuplicatesShrink(prefix);
    }
  }

  /** The position of the first row equal to `x`. */
  function FirstIndex(rows: seq<Row>, x: Row): (k: nat)
    requires x in rows
    ensures k < |rows| && rows[k] == x && x !in rows[..k]
  {
    if rows[0] == x then 0
    else
      var k := 1 + FirstIndex(rows[1..], x);
      assert rows[..k] == [rows[0]] + rows[1..][..k - 1];
      k
  }

  /** Appending a row does not move the first occurrence of an earlier row,
      and a new row first occurs where it is appended. */
  lemma FirstIndexSnoc(prefix: seq<Row>, last: Row, x: Row)
    requires x in prefix + [last]
    ensures x in prefix ==> FirstIndex(prefix + [last], x) == FirstIndex(prefix, x)
    ensures x !in prefix ==> FirstIndex(prefix + [last], x) == |prefix|
  {
    var rows := prefix + [last];
    var k' := FirstIndex(rows, x);
    if x in prefix {
      var k := FirstIndex(prefix, x);
      assert rows[k] == x;
    }
  }

  /**
   * `kept` holds every distinct row of `rows` once and nothing else, ordered
   * by where each row first occurs in `rows`.
   */
  ghost predicate FirstOccurrenceOrder(rows: seq<Row>, kept: seq<Row>)
  {
    && NoDuplicates(kept)
    && (forall x :: x in kept <==> x in rows)
    && (forall i, j :: 0 <= i < j < |kept| ==>
          FirstIndex(rows, kept[i]) < FirstIndex(rows, kept[j]))
  }

  /** Deduplication keeps the first occurrence of each row, in input order. */
  lemma {:induction false} DropDuplicatesKeepsFirstOccurrences(rows: seq<Row>)
    ensures FirstOccurrenceOrder(rows, DropDuplicates(rows))
  {
    if rows != [] {
      var n := |rows| - 1;
      var prefix, last := rows[..n], rows[n];
      assert rows == prefix + [last];
      DropDuplicatesKeepsFirstOccurrences(prefix);
      var kept := DropDuplicates(rows);
      forall i, j | 0 <= i < j < |kept|
        ensures FirstIndex(rows, kept[i]) < FirstIndex(rows, kept[j])
      {
        var pk := DropDuplicates(prefix);
        FirstIndexSnoc(prefix, last, kept[i]);
        FirstIndexSnoc(prefix, last, kept[j]);
        if j == |pk| {
          assert kept[j] == last && last !in prefix;
          assert kept[i] == pk[i];
        } else {
          assert kept[i] == pk[i] && kept[j] == pk[j];
        }
      }
    }
  }

  /** A repeated last row changes no first occurrence. */
  lemma OrderWithoutRepeatedLast(prefix: seq<Row>, last: Row, kept: seq<Row>)
    requires last in prefix
    requires FirstOccurrenceOrder(prefix + [last], kept)
    ensures FirstOccurrenceOrder(prefix, kept)
  {
    forall x | x in kept
      ensures FirstIndex(prefix + [last], x) == FirstIndex(prefix, x)
    {
      FirstIndexSnoc(prefix, last, x);
    }
  }

  /** A new last row occurs first after every other row, so it comes last. */
  lemma NewLastComesLast(prefix: seq<Row>, last: Row, kept: seq<Row>)
    requires last !in prefix
    requires FirstOccurrenceOrder(prefix + [last], kept)
    ensures kept != [] && kept[|kept| - 1] == last
  {
    var rows := prefix + [last];
    assert last in rows;
    var k :| 0 <= k < |kept| && kept[k] == last;
    FirstIndexSnoc(prefix, last, last);
    var z := FirstIndex(rows, kept[|kept| - 1]);
    assert k == |kept| - 1;
  }

  /** Without the new last row, the rest keeps its order. */
  lemma OrderWithoutNewLast(prefix: seq<Row>, last: Row, front: seq<Row>)
    requires last !in prefix
    requires FirstOccurrenceOrder(prefix + [last], front + [last])
    ensures FirstOccurrenceOrder(prefix, front)
  {
    var rows, kept := prefix + [last], front + [last];
    forall i, j | 0 <= i < j < |front|
      ensures front[i] != front[j]
    {
      assert kept[i] == front[i] && kept[j] == front[j];
    }
    forall x | x in front
      ensures x in prefix && FirstIndex(rows, x) == FirstIndex(prefix, x)
    {
      var m :| 0 <= m < |front| && front[m] == x;
      assert kept[m] == x && kept[|front|] == last;
      FirstIndexSnoc(prefix, last, x);
    }
    forall x | x in prefix
      ensures x in front
    {
      assert x in kept && x != last;
    }
    forall i, j | 0 <= i < j < |front|
      ensures FirstIndex(prefix, front[i]) < FirstIndex(prefix, front[j])
    {
      assert kept[i] == front[i] && kept[j] == front[j];
    }
  }

  /** Conversely, only the result of deduplication has that shape. */
  lemma {:induction false} FirstOccurrenceOrderUnique(rows: seq<Row>, kept: seq<Row>)
    requires FirstOccurrenceOrder(rows, kept)
    ensures kept == DropDuplicates(rows)
  {
    if rows == [] {
      assert forall x :: x in multiset(kept) ==> x in kept && x in rows;
      assert multiset(kept) == multiset{};
    } else {
      var n := |rows| - 1;
      var prefix, last := rows[..n], rows[n];
      assert rows == prefix + [last];
      if last in prefix {
        OrderWithoutRepeatedLast(prefix, last, kept);
        FirstOccurrenceOrderUnique(prefix, kept);
      } else {
        NewLastComesLast(prefix, last, kept);
        var front := kept[..|kept| - 1];
        assert kept == front + [last];
        OrderWithoutNewLast(prefix, last, front);
        FirstOccurrenceOrderUnique(prefix, front);
      }
    }
  }

  /** Every distinct input row appears exactly once in the output. */
  lemma {:induction false} DropDuplicatesOnce(rows: seq<Row>, x: Row)
    requires x in rows
    ensures multiset(DropDuplicates(rows))[x] == 1
  {
    var n := |rows| - 1;
    var prefix, last := rows[..n], rows[n];
    assert rows == prefix + [last];
    if x in prefix {
      DropDuplicatesOnce(prefix, x);
    } else {
      assert x == last;
      assert multiset(DropDuplicates(prefix))[x] == 0;
    }
  }
}
