/**
 * The whole script, etl_pipeline.py lines 24-79, as one function from the
 * two loaded tables to the table that is written to the database and the
 * two duplicate counts the script prints. Loading the CSV files and the
 * database write are outside the model: the loaded message frame and the
 * `categories` column are parameters, and the final table is the result.
 */
module Pipeline {
  import opened Text
  import opened Tables
  import opened LabelDecoder
  import opened Merger
  import opened Deduplicator

  /** The table handed to `to_sql` and the counts printed at lines 71 and 79. */
  datatype Output = Output(table: Frame, firstReport: int, secondReport: int)

  /** Lines 24-79 in order. */
  function Run(messages: Frame, entries: seq<string>): (r: Result<Output>)
    requires WellFormed(messages)
    requires SameSegmentCount(entries)
    ensures r.Err? <==> entries == []
    ensures r.Ok? ==> WellFormed(r.value.table)
    ensures r.Ok? ==> |r.value.table.rows| <= Min(|messages.rows|, |entries|)
    ensures r.Ok? ==> r.value.firstReport
                      == Min(|messages.rows|, |entries|) - |r.value.table.rows|
    ensures r.Ok? ==> r.value.firstReport >= 0 && r.value.secondReport == 0
    ensures r.Ok? ==> NoDuplicates(r.value.table.rows)
    ensures r.Ok? ==> r.value.table.columns == messages.columns + Decode(entries).value.columns
  {
    match Decode(entries)
    case Err(e) => Err(e)
    case Ok(categories) =>
      var df := Merge(messages, categories);
      var noDuplicates := DropDuplicateRows(df);
      var firstReport := DuplicateCount(df.rows);
      var copy := noDuplicates;
      var secondReport := |copy.rows| - |noDuplicates.rows|;
      Ok(Output(copy, firstReport, secondReport))
  }

  /** The rows of the cleaned table are exactly the merged pairs of message
      row i and decoded category row i, each distinct pair once. */
  lemma RunRowsArePairs(messages: Frame, entries: seq<string>, x: Row)
    requires WellFormed(messages) && SameSegmentCount(entries) && entries != []
    ensures x in Run(messages, entries).value.table.rows <==>
            exists i :: 0 <= i < Min(|messages.rows|, |entries|) &&
                        x == messages.rows[i] + Decode(entries).value.rows[i]
    ensures x in Run(messages, entries).value.table.rows ==>
            multiset(Run(messages, entries).value.table.rows)[x] == 1
  {
    var merged := Merge(messages, Decode(entries).value).rows;
    if x in merged {
      DropDuplicatesOnce(merged, x);
    }
  }

  /** The cleaned table lists the merged rows in the order in which each
      first occurs, and no other table does. */
  lemma RunKeepsFirstOccurrences(messages: Frame, entries: seq<string>, kept: seq<Row>)
    requires WellFormed(messages) && SameSegmentCount(entries) && entries != []
    ensures var merged := Merge(messages, Decode(entries).value).rows;
            kept == Run(messages, entries).value.table.rows <==> FirstOccurrenceOrder(merged, kept)
  {
    var merged := Merge(messages, Decode(entries).value).rows;
    DropDuplicatesKeepsFirstOccurrences(merged);
    if FirstOccurrenceOrder(merged, kept) {
      FirstOccurrenceOrderUnique(merged, kept);
    }
  }

  /** The first report is zero exactly when the merged table has no repeated
      row, and deduplicating the final table again would remove nothing. */
  lemma RunReports(messages: Frame, entries: seq<string>)
    requires WellFormed(messages) && SameSegmentCount(entries) && entries != []
    ensures var merged := Merge(messages, Decode(entries).value).rows;
            Run(messages, entries).value.firstReport == 0 <==> NoDuplicates(merged)
    ensures DuplicateCount(Run(messages, entries).value.table.rows) == 0
  {
    var merged := Merge(messages, Decode(entries).value).rows;
    DuplicateCountZero(merged);
    DropDuplicatesIdempotent(merged);
  }

  /** The names `related`, `request` with flag rows `10` and `01` are the
      entries `related-1;request-0` and `related-0;request-1`. */
  lemma ExampleEncode(names: seq<string>, flags: seq<seq<char>>)
    requires names == ["related", "request"] && flags == ["10", "01"]
    ensures Encode(names, flags) == ["related-1;request-0", "related-0;request-1"]
  {
    var s0, s1 := Segments(names, flags[0]), Segments(names, flags[1]);
    assert s0[0] == "related-1" && s0[1] == "request-0" && s0 == ["related-1", "request-0"];
    assert s1[0] == "related-0" && s1[1] == "request-1" && s1 == ["related-0", "request-1"];
    assert Join(s0, Separator) == "related-1;request-0";
    assert Join(s1, Separator) == "related-0;request-1";
  }

  /** Those two entries decode to the names as columns and the flags as cells. */
  lemma ExampleDecode(names: seq<string>, flags: seq<seq<char>>)
    requires names == ["related", "request"] && flags == ["10", "01"]
    ensures SameSegmentCount(Encode(names, flags))
    ensures Decode(Encode(names, flags)) == Ok(Frame(names, [["1", "0"], ["0", "1"]]))
  {
    assert WellFormedLabels(names, flags);
    DecodeEncoded(names, flags);
    var rows := FlagTable(names, flags).rows;
    assert |rows| == 2 && rows[0] == ["1", "0"] && rows[1] == ["0", "1"];
    assert rows == [["1", "0"], ["0", "1"]];
  }

  /** Two messages with distinct flags: nothing is removed and every message
      row is followed by its own flags. */
  lemma ExampleRun(messages: Frame, names: seq<string>, flags: seq<seq<char>>)
    requires messages == Frame(["id", "message"], [["1", "help"], ["2", "food"]])
    requires names == ["related", "request"] && flags == ["10", "01"]
    ensures SameSegmentCount(Encode(names, flags))
    ensures Run(messages, Encode(names, flags))
            == Ok(Output(Frame(["id", "message", "related", "request"],
                               [["1", "help", "1", "0"], ["2", "food", "0", "1"]]), 0, 0))
  {
    ExampleDecode(names, flags);
    var categories := Frame(names, [["1", "0"], ["0", "1"]]);
    var merged := Merge(messages, categories).rows;
    assert merged[0] == ["1", "help"] + ["1", "0"] == ["1", "help", "1", "0"];
    assert merged[1] == ["2", "food"] + ["0", "1"] == ["2", "food", "0", "1"];
    assert merged == [["1", "help", "1", "0"], ["2", "food", "0", "1"]];
    DropDuplicatesOfDistinct(merged);
    assert ["id", "message"] + names == ["id", "message", "related", "request"];
  }
}
