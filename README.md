# ETL pipeline: category-label decoding, positional merge and deduplication

A Dafny model of the transformation in `etl_pipeline.py`, the disaster-response
ETL script. The script takes a message table and a column of compound category
labels of the form `name1-flag1;name2-flag2;...;nameN-flagN` and does five things:

- It splits every label entry on `;`.
- It names the resulting columns after the first entry's segments, deleting the
  characters `0`, `1` and `-`.
- It reduces every cell to its digit characters.
- It places the message table and the decoded table side by side, row by row.
- It drops exact-duplicate rows and prints how many were dropped. It then
  copies the result and prints a second count, which is always 0.

The model is pure: each step of the script is a whole-table expression, and
each is a Dafny function over strings (`seq<char>`) and tables (sequences of
rows of strings).

Modules, one per stage:

- `Text` (`text.dfy`): Python's `str.split` and `str.join` with a one-character
  separator, `str.replace(c, "")`, and a character filter (the regular
  expression `[^0-9]` deleted by `re.sub`), with counts and subsequences.
- `Tables` (`tables.dfy`): a `Frame` holds column names and rows. Row labels
  are not stored. The two loaded frames carry the default labels 0..n-1, so
  for the merge a row's label is its position. The deduplicated frame keeps
  the labels of its surviving rows (0, 1, 3 once row 2 is dropped), but the
  database write at line 85 uses `index=False` and discards them. `Tables`
  also holds the `Result` type for the one error the model keeps:
  `categories.iloc[0]` on an empty table. The other ways the script fails are
  excluded by preconditions or not modelled (see "Left out").
- `LabelDecoder` (`label_decoder.dfy`): lines 24-33.
- `Merger` (`merger.dfy`): line 41.
- `Deduplicator` (`deduplicator.dfy`): lines 70-79.
- `Pipeline` (`pipeline.dfy`): the whole script from the loaded tables to the
  table handed to the database and the two printed counts.

What the code does where a reader might expect otherwise:

- Column names lose only `0`, `1` and `-`, not every digit. A `2` in a segment
  survives, as in `related-2` → `related2`.
- Cells stay digit strings. They are not converted to integers, and a cell with
  no digits becomes the empty string rather than an error. Digits inside a
  name stay in the cell: `aid2-1` → `21`.
- The merge pairs rows by position and keeps min(#messages, #entries) rows. No
  id column is consulted and no equal-length check is made.
- Differing segment counts across entries and colliding column names are not
  detected. The first is a precondition of the model (see "Left out"); the
  second is allowed.
- An empty category table makes `categories.iloc[0]` raise `IndexError`. The
  model returns `Err(NoCategoryRows)`.

## Model

| member | source | states |
|---|---|---|
| `Text.Split` | etl_pipeline.py:24 | splitting on `;` gives one more piece than there are `;` in the entry, and no piece contains `;` |
| `Text.JoinSplit` | etl_pipeline.py:24 | joining the pieces of a split with the separator gives back the original entry |
| `Text.SplitJoin` | etl_pipeline.py:24 | splitting a join of a non-empty list of separator-free pieces gives back the pieces |
| `Text.RemoveChar` | etl_pipeline.py:27 | `s.replace(c, "")` leaves no `c` in the result |
| `Text.RemoveCharCount` | etl_pipeline.py:27 | `replace(c, "")` shortens the string by the number of `c` and keeps every other character as often |
| `Text.Filter` | etl_pipeline.py:33 | the filtered string is no longer than the input and holds only characters that pass the test |
| `Text.FilterIsSubsequence` | etl_pipeline.py:33 | filtering only deletes characters: the result is a subsequence of the input |
| `Text.FilterCount` | etl_pipeline.py:33 | every character that passes the test occurs as often in the result as in the input |
| `Text.FilterIdempotent` | etl_pipeline.py:33 | filtering an already-filtered string changes nothing |
| `LabelDecoder.SplitEntries` | etl_pipeline.py:24 | one segment row per entry, row i being the split of entry i |
| `LabelDecoder.SplitEntrySegments` | etl_pipeline.py:24 | an entry has one more segment than `;`, and its segments rejoined with `;` restore it |
| `LabelDecoder.ColumnName` | etl_pipeline.py:27 | the name derived from one segment is the segment with exactly the characters `0`, `-` and `1` deleted |
| `LabelDecoder.ColumnNameIsFilter` | etl_pipeline.py:27 | the three chained `replace` calls delete exactly `0`, `1` and `-` and keep every other character in order |
| `LabelDecoder.ColumnNameSpec` | etl_pipeline.py:27 | a column name contains no `0`, `1` or `-`, is a subsequence of its segment, and keeps every other character (a `2` included) as often as the segment has it |
| `LabelDecoder.ColumnNames` | etl_pipeline.py:27-30 | exactly one name per segment of the first row, name j derived from segment j |
| `LabelDecoder.CleanCell` | etl_pipeline.py:33 | a cleaned cell is no longer than the cell and holds only the digits `0`-`9` |
| `LabelDecoder.CleanCellSpec` | etl_pipeline.py:33 | a cleaned cell holds only digits, is a subsequence of the cell, keeps every digit as often, and cleaning it again changes nothing |
| `LabelDecoder.CleanRow` | etl_pipeline.py:33 | `applymap` on a row: same length, cell j cleaned |
| `LabelDecoder.CleanRows` | etl_pipeline.py:33 | `applymap` on the table: same row count, row i cleaned cell by cell |
| `LabelDecoder.Decode` | etl_pipeline.py:24-33 | fails exactly when there are no entries; otherwise a well-formed frame with one row per entry and one column per segment of the first entry |
| `LabelDecoder.DecodeCell` | etl_pipeline.py:24-33 | column j is named after segment j of the first entry, and cell (i, j) is the digits of segment j of entry i |
| `LabelDecoder.DecodeIdempotent` | etl_pipeline.py:33 | cleaning the cells of a decoded table again leaves it unchanged |
| `LabelDecoder.SegmentRoundTrip` | etl_pipeline.py:27-33 | a `name-flag` segment whose name holds no digit and no `-` yields the name (with the flag appended when it is not `0` or `1`) as column name and the flag alone as cell |
| `LabelDecoder.EncodeSplits` | etl_pipeline.py:24 | an entry built from well-formed names and flags splits back into its `name-flag` segments |
| `LabelDecoder.DecodeEncoded` | etl_pipeline.py:24-33 | decoding entries `name1-flag1;...` built from names without digits, `-` or `;` and 0/1 flags gives exactly the names as columns and the flags as cells |
| `LabelDecoder.ExampleCleanCell` | etl_pipeline.py:33 | `related-1` cleans to `1`, and `aid2-1` cleans to `21` |
| `Merger.ConcatRows` | etl_pipeline.py:41 | the paired table has min(#left, #right) rows, row i being left row i followed by right row i |
| `Merger.Merge` | etl_pipeline.py:41 | the merged frame is well formed, has the message columns followed by the category columns, and has min(#messages, #categories) rows |
| `Merger.MergeSplitsBack` | etl_pipeline.py:41 | each merged row cut at the message width gives back the message row and the category row of the same position |
| `Deduplicator.DropDuplicates` | etl_pipeline.py:70 | the result is no longer than the input, has no two equal rows, and holds exactly the rows of the input |
| `Deduplicator.DropDuplicateRows` | etl_pipeline.py:70 | deduplicating a frame keeps its columns and leaves it well formed |
| `Deduplicator.DropDuplicatesIsUnflagged` | etl_pipeline.py:70 | deduplication equals keeping the rows that `duplicated(keep="first")` does not flag, i.e. the rows with no equal row before them |
| `Deduplicator.DuplicateCount` | etl_pipeline.py:71 | the printed count `len(df) - len(df_no_duplicates)` lies between 0 and the number of merged rows |
| `Deduplicator.DuplicateCountIsFlagged` | etl_pipeline.py:71 | the printed count `len(df) - len(df_no_duplicates)` equals the number of rows that have an equal row before them |
| `Deduplicator.DuplicateCountZero` | etl_pipeline.py:71 | the count is never negative, and it is zero exactly when the table has no duplicate rows |
| `Deduplicator.DropDuplicatesOfDistinct` | etl_pipeline.py:70 | a table without duplicates is returned unchanged |
| `Deduplicator.DropDuplicatesIdempotent` | etl_pipeline.py:75-79 | deduplicating twice equals deduplicating once, so a second count on the result is zero |
| `Deduplicator.DropDuplicatesKeepsFirstOccurrences` | etl_pipeline.py:70 | the output has every distinct input row once and nothing else, ordered by where each row first occurs in the input |
| `Deduplicator.FirstOccurrenceOrderUnique` | etl_pipeline.py:70 | any table with that shape is the deduplicated table, so first-occurrence order determines the result |
| `Deduplicator.DropDuplicatesOnce` | etl_pipeline.py:70 | every distinct input row occurs exactly once in the output |
| `Pipeline.Run` | etl_pipeline.py:24-79 | fails exactly when the category table is empty. Otherwise the final table is well formed and duplicate-free, has at most min(#messages, #entries) rows, and has the message columns followed by the derived names. The first count equals merged length minus final length and is non-negative; the second count is 0 |
| `Pipeline.RunRowsArePairs` | etl_pipeline.py:41-70 | a row is in the final table exactly when it is message row i followed by decoded row i for some common position i, and then it occurs once |
| `Pipeline.RunKeepsFirstOccurrences` | etl_pipeline.py:41-70 | the final table is the one listing the merged rows in first-occurrence order, and no other table is |
| `Pipeline.RunReports` | etl_pipeline.py:70-79 | the first count is zero exactly when the merged table has no repeated row, and deduplicating the final table again removes nothing |
| `Pipeline.ExampleEncode` | etl_pipeline.py:24 | the names `related`, `request` with flag rows `1,0` and `0,1` are exactly the entries `related-1;request-0` and `related-0;request-1` |
| `Pipeline.ExampleDecode` | etl_pipeline.py:24-33 | the entries `related-1;request-0` and `related-0;request-1` decode to columns `related`, `request` with rows `1,0` and `0,1` |
| `Pipeline.ExampleRun` | etl_pipeline.py:24-79 | two messages with those entries give the four-column table `(1, help, 1, 0)`, `(2, food, 0, 1)` and two zero counts |

## Left out

- Reading `messages.csv` and `categories.csv` (lines 17 and 21) is file I/O through a library parser. The loaded message frame and the `categories` column are parameters of `Pipeline.Run`.
- The SQLite write (lines 84-85) is a database call. The final table is the result of `Pipeline.Run`. `to_sql`'s own rules are not modelled, such as its refusal of duplicate column names.
- `.head()` calls and progress messages (lines 18, 34, 42, 49, 55, 62) are display only. The two printed counts of lines 71 and 79 are kept as numbers.
- pandas dtypes are not modelled: every cell is a string. `read_csv` would parse numeric message columns as numbers. Each cell string of the model stands for the loaded value, one string per value, so two rows are equal in the model exactly when pandas finds them equal. Texts such as `1` and `1.0` that parse to the same number are written as one string.
- Row index objects are not modelled. Both loaded frames carry the default labels 0..n-1, so the label join of `concat(join="inner")` is positional pairing. The labels that `drop_duplicates()` (line 70) and `.copy()` (line 75) carry over from the surviving rows are not modelled either, because `to_sql(..., index=False)` at line 85 does not write them.
- Missing values (NaN and None) are not modelled.
- `LabelDecoder.Decode`, `Pipeline.Run`: require every entry to have as many segments as the first. `str.split(expand=True)` pads every entry shorter than the longest with `None`. When a later entry is shorter, `re.sub` at line 33 raises on its `None` cells. When a later entry is longer, the first row is padded, and `item.replace` at line 27 raises on its `None` cells. The code does not check for either case, so both are excluded rather than given an invented error.
- `Text.Split`, `Text.RemoveChar` and `Text.Filter` model only the single-character uses the script makes of `str.split`, `str.replace` and `re.sub`, not those functions in general.
