/**
 * The category-label decoder of etl_pipeline.py lines 24-33: each compound
 * entry `name1-flag1;...;nameN-flagN` is split into N cells, the column
 * names are derived from the first entry's cells, and every cell is reduced
 * to its digit characters.
 */
module LabelDecoder {
  import opened Text
  import opened Tables

  /** The separator between the segments of a compound entry. */
  const Separator: char := ';'

  /** Line 24: the rows of `str.split(';', expand=True)`, one per entry. */
  function SplitEntries(entries: seq<string>): (segments: seq<Row>)
    ensures |segments| == |entries|
    ensures forall i :: 0 <= i < |entries| ==>
              segments[i] == Split(entries[i], Separator)
  {
    if entries == [] then []
    else [Split(entries[0], Separator)] + SplitEntries(entries[1..])
  }

  /**
   * Every entry has as many segments as the first. The script does not check
   * this: entries shorter than the longest are padded with missing values.
   * A shorter later entry makes the cell filter of line 33 fail on them; a
   * longer later entry pads the first row, and the name derivation of line 27
   * fails on it.
   */
  predicate SameSegmentCount(entries: seq<string>)
  {
    forall i :: 0 <= i < |entries| ==>
      Count(entries[i], Separator) == Count(entries[0], Separator)
  }

  /** Splitting an entry gives one more segment than it has separators, and
      joining the segments with the separator restores the entry. */
  lemma SplitEntrySegments(entry: string)
    ensures |Split(entry, Separator)| == Count(entry, Separator) + 1
    ensures Join(Split(entry, Separator), Separator) == entry
  {
    JoinSplit(entry, Separator);
  }

  /** The characters line 27 keeps in a column name. */
  predicate IsNameChar(c: char)
  {
    c != '0' && c != '1' && c != '-'
  }

  /** Line 27: `item.replace("0", "").replace("-", "").replace("1", "")`,
      which deletes exactly the characters `'0'`, `'-'` and `'1'`. */
  function ColumnName(segment: string): (name: string)
    ensures name == Filter(segment, IsNameChar)
  {
    ColumnNameIsFilter(segment);
    RemoveChar(RemoveChar(RemoveChar(segment, '0'), '-'), '1')
  }

  /** The three replacements together delete exactly the characters `'0'`,
      `'1'` and `'-'` and keep every other character in order. */
  lemma {:induction false} ColumnNameIsFilter(segment: string)
    ensures RemoveChar(RemoveChar(RemoveChar(segment, '0'), '-'), '1')
            == Filter(segment, IsNameChar)
  {
    if segment != [] {
      var x, t := segment[0], segment[1..];
      ColumnNameIsFilter(t);
      var r0 := RemoveChar(t, '0');
      var r1 := RemoveChar(r0, '-');
      if x == '0' {
        assert RemoveChar(segment, '0') == r0;
      } else {
        assert RemoveChar(segment, '0') == [x] + r0;
        assert ([x] + r0)[0] == x && ([x] + r0)[1..] == r0;
        if x == '-' {
          assert RemoveChar([x] + r0, '-') == r1;
        } else {
          assert RemoveChar([x] + r0, '-') == [x] + r1;
          assert ([x] + r1)[0] == x && ([x] + r1)[1..] == r1;
        }
      }
    }
  }

  /** A derived column name is the segment with `'0'`, `'1'` and `'-'` deleted:
      a subsequence of it that holds none of those three characters and every
      other character as often as the segment does. */
  lemma ColumnNameSpec(segment: string, c: char)
    requires IsNameChar(c)
    ensures '0' !in ColumnName(segment) && '1' !in ColumnName(segment)
    ensures '-' !in ColumnName(segment)
    ensures IsSubsequence(ColumnName(segment), segment)
    ensures Count(ColumnName(segment), c) == Count(segment, c)
  {
    var name := ColumnName(segment);
    assert forall i :: 0 <= i < |name| ==> IsNameChar(name[i]);
    FilterIsSubsequence(segment, IsNameChar);
    FilterCount(segment, IsNameChar, c);
  }

  /** Line 27: one column name per segment of the first row, in segment order. */
  function ColumnNames(first: Row): (names: seq<string>)
    ensures |names| == |first|
    ensures forall j :: 0 <= j < |first| ==> names[j] == ColumnName(first[j])
  {
    if first == [] then []
    else [ColumnName(first[0])] + ColumnNames(first[1..])
  }

  /** The characters `re.sub("[^0-9]", "", x)` keeps. */
  predicate IsDigit(c: char)
  {
    '0' <= c <= '9'
  }

  /** Line 33: the lambda applied to every cell; it keeps only digits. */
  function CleanCell(cell: string): (r: string)
    ensures |r| <= |cell|
    ensures forall i :: 0 <= i < |r| ==> IsDigit(r[i])
  {
    Filter(cell, IsDigit)
  }

  /** A cleaned cell is the subsequence of the cell's digits: it holds only
      digits, every digit of the cell as often, and cleaning it again leaves
      it unchanged. */
  lemma CleanCellSpec(cell: string, d: char)
    requires IsDigit(d)
    ensures forall i :: 0 <= i < |CleanCell(cell)| ==> IsDigit(CleanCell(cell)[i])
    ensures IsSubsequence(CleanCell(cell), cell)
    ensures Count(CleanCell(cell), d) == Count(cell, d)
    ensures CleanCell(CleanCell(cell)) == CleanCell(cell)
  {
    FilterIsSubsequence(cell, IsDigit);
    FilterCount(cell, IsDigit, d);
    FilterIdempotent(cell, IsDigit);
  }

  /** Line 33: `applymap` of the cell filter over one row. */
  function CleanRow(row: Row): (r: Row)
    ensures |r| == |row|
    ensures forall j :: 0 <= j < |row| ==> r[j] == CleanCell(row[j])
  {
    if row == [] then []
    else [CleanCell(row[0])] + CleanRow(row[1..])
  }

  /** Line 33: `applymap` of the cell filter over the whole table. */
  function CleanRows(rows: seq<Row>): (r: seq<Row>)
    ensures |r| == |rows|
    ensures forall i :: 0 <= i < |rows| ==> r[i] == CleanRow(rows[i])
  {
    if rows == [] then []
    else [CleanRow(rows[0])] + CleanRows(rows[1..])
  }

  /** Lines 24-33: split, name the columns after the first row, clean the
      cells. An empty category table fails at `iloc[0]`. */
  function Decode(entries: seq<string>): (r: Result<Frame>)
    requires SameSegmentCount(entries)
    ensures r.Err? <==> entries == []
    ensures r.Ok? ==> WellFormed(r.value)
    ensures r.Ok? ==> |r.value.rows| == |entries|
    ensures r.Ok? ==> |r.value.columns| == Count(entries[0], Separator) + 1
  {
    var segments := SplitEntries(entries);
    if segments == [] then Err(NoCategoryRows)
    else Ok(Frame(ColumnNames(segments[0]), CleanRows(segments)))
  }

  /** What the decoded table holds: column j is named after segment j of the
      first entry, and cell (i, j) is the digits of segment j of entry i. */
  lemma DecodeCell(entries: seq<string>, i: nat, j: nat)
    requires SameSegmentCount(entries)
    requires i < |entries| && j <= Count(entries[0], Separator)
    ensures Decode(entries).Ok?
    ensures Decode(entries).value.columns[j]
            == ColumnName(Split(entries[0], Separator)[j])
    ensures Decode(entries).value.rows[i][j]
            == CleanCell(Split(entries[i], Separator)[j])
  {
  }

  /** Cleaning the cells of a decoded table again changes nothing. */
  lemma {:induction false} DecodeIdempotent(entries: seq<string>)
    requires SameSegmentCount(entries)
    requires entries != []
    ensures CleanRows(Decode(entries).value.rows) == Decode(entries).value.rows
  {
    var segments := SplitEntries(entries);
    var rows := Decode(entries).value.rows;
    assert rows == CleanRows(segments);
    forall i | 0 <= i < |rows|
      ensures CleanRow(rows[i]) == rows[i]
    {
      forall j | 0 <= j < |rows[i]|
        ensures CleanCell(rows[i][j]) == rows[i][j]
      {
        assert rows[i][j] == CleanCell(segments[i][j]);
        FilterIdempotent(segments[i][j], IsDigit);
      }
    }
  }

  /** A segment of the form `name-flag` (as in `related-1`, line 52), whose
      name holds no digit and no `'-'`, decodes to the name as column name and
      the flag as cell. */
  lemma {:induction false} SegmentRoundTrip(name: string, flag: char)
    requires forall i :: 0 <= i < |name| ==> IsNameChar(name[i]) && !IsDigit(name[i])
    requires IsDigit(flag)
    ensures ColumnName(name + "-" + [flag]) == (if IsNameChar(flag) then name + [flag] else name)
    ensures CleanCell(name + "-" + [flag]) == [flag]
  {
    var segment := name + "-" + [flag];
    assert segment == name + ("-" + [flag]);
    ColumnNameIsFilter(segment);
    FilterConcat(name, "-" + [flag], IsNameChar);
    FilterConcat("-", [flag], IsNameChar);
    FilterAllKept(name, IsNameChar);
    FilterConcat(name, "-" + [flag], IsDigit);
    FilterConcat("-", [flag], IsDigit);
    FilterNoneKept(name, IsDigit);
  }

  /** The characters a category name of the `name-flag` format may hold. */
  predicate IsLabelChar(c: char)
  {
    IsNameChar(c) && !IsDigit(c) && c != Separator
  }

  /** The flags of the `name-flag` format: `0` or `1` (line 52). */
  predicate IsFlag(c: char)
  {
    c == '0' || c == '1'
  }

  /** Names and flags of the `name-flag` format, one flag per name per row. */
  predicate WellFormedLabels(names: seq<string>, flags: seq<seq<char>>)
  {
    && (forall j, k :: 0 <= j < |names| && 0 <= k < |names[j]| ==> IsLabelChar(names[j][k]))
    && (forall i :: 0 <= i < |flags| ==> |flags[i]| == |names|)
    && (forall i, j :: 0 <= i < |flags| && 0 <= j < |flags[i]| ==> IsFlag(flags[i][j]))
  }

  /** The segments `name-flag` of one entry. */
  function Segments(names: seq<string>, flags: seq<char>): seq<string>
    requires |flags| == |names|
  {
    seq(|names|, j requires 0 <= j < |names| => names[j] + "-" + [flags[j]])
  }

  /** The compound entries `name1-flag1;...;nameN-flagN`, one per row of flags. */
  function Encode(names: seq<string>, flags: seq<seq<char>>): seq<string>
    requires forall i :: 0 <= i < |flags| ==> |flags[i]| == |names|
  {
    seq(|flags|, i requires 0 <= i < |flags| => Join(Segments(names, flags[i]), Separator))
  }

  /** The table that lines 46-52 describe for such entries, with each flag
      kept as the one-character string that line 33 leaves: the names as
      columns and each flag as a cell. */
  function FlagTable(names: seq<string>, flags: seq<seq<char>>): Frame
    requires forall i :: 0 <= i < |flags| ==> |flags[i]| == |names|
  {
    Frame(names, seq(|flags|, i requires 0 <= i < |flags| =>
                       seq(|names|, j requires 0 <= j < |names| => [flags[i][j]])))
  }

  /** Each encoded entry splits back into its segments. */
  lemma EncodeSplits(names: seq<string>, flags: seq<seq<char>>, i: nat)
    requires |names| > 0 && WellFormedLabels(names, flags) && i < |flags|
    ensures Split(Encode(names, flags)[i], Separator) == Segments(names, flags[i])
  {
    var segments := Segments(names, flags[i]);
    forall j | 0 <= j < |segments|
      ensures Separator !in segments[j]
    {
      assert segments[j] == names[j] + ("-" + [flags[i][j]]);
      assert forall k :: 0 <= k < |names[j]| ==> IsLabelChar(names[j][k]);
    }
    SplitJoin(segments, Separator);
  }

  /** Decoding entries of the `name-flag` format recovers the names as column
      names and the flags as cells. */
  lemma DecodeEncoded(names: seq<string>, flags: seq<seq<char>>)
    requires |names| > 0 && |flags| > 0 && WellFormedLabels(names, flags)
    ensures SameSegmentCount(Encode(names, flags))
    ensures Decode(Encode(names, flags)) == Ok(FlagTable(names, flags))
  {
    var entries := Encode(names, flags);
    forall i | 0 <= i < |entries|
      ensures Split(entries[i], Separator) == Segments(names, flags[i])
      ensures Count(entries[i], Separator) == |names| - 1
    {
      EncodeSplits(names, flags, i);
    }
    var segments := SplitEntries(entries);
    var decoded := Decode(entries).value;
    var expected := FlagTable(names, flags);
    forall i, j | 0 <= i < |flags| && 0 <= j < |names|
      ensures ColumnName(segments[0][j]) == names[j]
      ensures CleanCell(segments[i][j]) == [flags[i][j]]
    {
      assert forall k :: 0 <= k < |names[j]| ==> IsLabelChar(names[j][k]);
      SegmentRoundTrip(names[j], flags[0][j]);
      SegmentRoundTrip(names[j], flags[i][j]);
    }
    assert decoded == Frame(ColumnNames(segments[0]), CleanRows(segments));
    assert decoded.columns == expected.columns;
    forall i | 0 <= i < |flags|
      ensures decoded.rows[i] == expected.rows[i]
    {
      assert |segments[i]| == |names|;
      assert decoded.rows[i] == CleanRow(segments[i]);
    }
    assert decoded.rows == expected.rows;
  }

  /** Only the flag survives for a name without digits, but digits inside a
      name are kept alongside it. */
  lemma ExampleCleanCell()
    ensures CleanCell("related-1") == "1"
    ensures CleanCell("aid2-1") == "21"
  {
  }
}
