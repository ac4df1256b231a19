# csvdiff, modelled in Dafny

`csvdiff` compares two numeric CSV tables. It loads each file into a
`CSVData` record: the column names, the column and row counts, and a
row-major matrix of doubles. It then reports whether every cell of table B
lies within a per-column absolute **or** relative tolerance of the
corresponding cell of table A. The relative error of a cell is measured
against the largest magnitude found in its column of A. For "vector"
columns (names such as `V_x`, `V_y`, `V_z` sharing the prefix before the
first `_`), that scale is widened to the largest magnitude over every
column whose name contains the prefix.

The project has three modules:

- `Text` (`text.dfy`): `trim` and `split`.
  - `trim` strips one character from both ends of a string.
  - `split` cuts a line with `getline` semantics, then trims spaces and double quotes from each field.
  - Both are methods specified by the functions `Trimmed` and `Fields`.
- `Loader` (`loader.dfy`): the `CSVData` record (`Table`), `getNLines` and `readCSV`.
  - They work over a sequence of lines instead of a file.
  - They use a parse function from field text to number instead of `str2number`.
  - `readCSV` fills an `array<real>` row by row, as the source fills its matrix in place.
- `Comparator` (`comparator.dfy`): `diffCSV`, as methods over arrays.
  - Its stages are: the shape check, the per-column maximum, the vector-name collection, the group widening, and the cell-by-cell comparison with running error maxima and the differing-row counter.
  - Each stage is proved against a specification function.
  - Lemmas state what those functions promise.

Numbers are Dafny `real`s. `abs`, `max` and division are exact, so the
tolerance logic is stated without rounding.

## Model

| member | source | states |
|---|---|---|
| Text.Trim | csvdiff.cpp:20-32 | the result is `Trimmed(s, ch)`: the input with its trailing and then its leading run of `ch` removed |
| Text.TrimmedSlice | csvdiff.cpp:20-32 | the trimmed string is the contiguous slice `s[i..j]`, so interior characters are untouched; everything cut off is `ch`; the result neither starts nor ends with `ch` |
| Text.TrimmedEmpty | csvdiff.cpp:23-31 | the result is empty exactly when the input consists only of `ch`, the empty input included |
| Text.TrimmedIdempotent | csvdiff.cpp:20-32 | trimming a trimmed string changes nothing |
| Text.FindFrom | csvdiff.cpp:39 | the position found is the first occurrence of the delimiter at or after `from`, or the end of the string when there is none |
| Text.Find | csvdiff.cpp:39 | the scanning loop finds exactly `FindFrom` |
| Text.PiecesRoundTrip | csvdiff.cpp:39 | no piece contains the delimiter, and appending a delimiter to each piece and concatenating rebuilds the line, with one delimiter added when the line did not end with one, so no text is lost |
| Text.PiecesGetline | csvdiff.cpp:39 | an empty line yields no pieces, and a trailing delimiter adds no empty final piece |
| Text.FieldsArePieces | csvdiff.cpp:39-44 | there is one field per piece, in input order, and each field is its piece with spaces and then quotes trimmed |
| Text.CleanPiece | csvdiff.cpp:41-42 | trims spaces, then quotes, from one piece |
| Text.NextField | csvdiff.cpp:39-43 | one `getline` step from position `p`: the field is the cleaned piece starting at `p`, and the fields of the rest begin just after the delimiter that ended it |
| Text.Split | csvdiff.cpp:34-46 | the pushed fields are exactly `Fields(s, d)`, characterised by the three lemmas above |
| Loader.OffsetInBounds | csvdiff.cpp:144-145 | the row-major offset `i * n_columns + j` of any cell with `i < n_rows`, `j < n_columns` lies inside the `n_rows * n_columns` matrix |
| Loader.NonBlankFirst | csvdiff.cpp:102-136 | the non-blank count of all lines is that of the lines after the first, plus one exactly when the first line is not blank |
| Loader.NonBlankTrimmed | csvdiff.cpp:133-135 | every line kept as non-blank is non-empty and already free of leading and trailing spaces |
| Loader.GetNLines | csvdiff.cpp:68-83 | the count is the number of lines that are not empty after trimming spaces |
| Loader.FirstMismatchSpec | csvdiff.cpp:131-142 | every data row before the first mismatch has `n_columns` fields, and the row at the mismatch, if any, does not |
| Loader.FirstMismatchIs | csvdiff.cpp:131-142 | conversely, an index with that property is the first mismatch |
| Loader.FlattenAt | csvdiff.cpp:144-145 | in the row-major layout, field `j` of row `k` is at offset `k * n + j` |
| Loader.StoredCells | csvdiff.cpp:143-146 | a matrix whose stored prefix is the row-major layout of all parsed rows gives a table whose cell `(k, j)` is the parse of field `j` of data row `k` |
| Loader.StoreRow | csvdiff.cpp:143-145 | the inner loop writes row `row` at offsets `row * n .. row * n + n - 1`, keeps the earlier rows and leaves every later cell unchanged |
| Loader.RowCount | csvdiff.cpp:126 | the matrix gets one row per non-blank line after the header line (the corrected sizing, see Findings) |
| Loader.LineStep | csvdiff.cpp:131-136 | a blank line leaves the count of non-blank lines unchanged; any other raises it by one, and the data row it becomes is the split of the trimmed line |
| Loader.LoadLine | csvdiff.cpp:137-146 | a line whose field count is not `n_columns` is the first mismatch, reported with its count and with the matrix untouched; any other is stored as the next row after the rows already stored |
| Loader.NextLine | csvdiff.cpp:131-146 | one pass of the data loop: a blank line is skipped, a mismatching line stops at the first mismatch, any other line adds one stored row, the stored rows always being the parsed non-blank lines seen so far |
| Loader.FillRows | csvdiff.cpp:129-147 | the loop stops exactly at the first data row whose field count differs, numbering it `m + 2` and reporting its count; every row before it has `n_columns` fields and is stored, parsed, in row-major order |
| Loader.ReadRows | csvdiff.cpp:129-149 | the data loop fails at the first row with the wrong field count, numbering it `m + 2` among the non-blank lines; otherwise it returns a table loaded from the header and the data rows |
| Loader.LoadMatrix | csvdiff.cpp:124-149 | sizing plus the data loop: fails at the first mismatching row, otherwise yields a table loaded from every data row |
| Loader.ReadCSV | csvdiff.cpp:94-150 | fails on fewer than two non-blank lines, then on a header with no fields, then on the first data row whose field count differs from the header's; otherwise the table has the header as column names, `n_columns` equal to its length, one row per non-blank data line and every cell equal to the parse of its field |
| Loader.RowCountAsWritten | csvdiff.cpp:102-126 | when the first line is not blank, the rows loaded number exactly the source's `n_lines - 1` |
| Loader.BlankHeaderOneRowShort | csvdiff.cpp:115-126 | when the first line is blank, the data rows outnumber the source's `n_lines - 1` by one |
| Loader.SingleField | csvdiff.cpp:34-46 | a non-empty line without the delimiter splits into one field |
| Loader.BlankHeaderOverrun | csvdiff.cpp:115-145 | for the lines `"  "`, `"1"`, `"2"` the header is one empty name, `n_rows` is 1, both data lines pass the field-count check, and the second is written at offset 1, outside a one-cell matrix |
| Comparator.ColumnMaxIsMax | csvdiff.cpp:167-174 | a column maximum is non-negative, bounds the magnitude of every cell of the column, and is one of them unless it is 0 (so it is 0 with no rows) |
| Comparator.ColumnMaxAbs | csvdiff.cpp:166-174 | the nested loops leave `col_max_abs[j]` equal to the maximum magnitude of column `j` of A |
| Comparator.GroupKey | csvdiff.cpp:180-184 | a name has a vector name exactly when it contains `_`; the vector name contains no `_` and, followed by `_`, is a prefix of the name |
| Comparator.VectorNames | csvdiff.cpp:177-185 | the collected keys are distinct and are exactly the vector names of the columns |
| Comparator.ContainsIff | csvdiff.cpp:194 | `find` succeeds exactly when the key occurs at some position of the name, so membership is containment anywhere, not prefix |
| Comparator.GroupMaxIsMax | csvdiff.cpp:190-198 | the group maximum is non-negative, bounds the scale of every member column, and is one of them unless it is 0 |
| Comparator.GroupMaxMono | csvdiff.cpp:190-198 | raising scale entries never lowers a group maximum |
| Comparator.GroupStepRaises | csvdiff.cpp:188-201 | processing one key only raises entries, leaves non-members unchanged, and gives every member the same value, the group maximum |
| Comparator.ApplyGroup | csvdiff.cpp:189-200 | the two loops for one key perform exactly one group step on the array |
| Comparator.WidenGroups | csvdiff.cpp:187-201 | the group pass applies one group step per key, in the order of the keys |
| Comparator.WidenRaises | csvdiff.cpp:187-201 | for any key order, the group pass only raises scale entries |
| Comparator.WidenUntouched | csvdiff.cpp:187-201 | for any key order, a column whose name contains no key keeps its own maximum |
| Comparator.WidenCovers | csvdiff.cpp:187-201 | for any key order, a column containing a key ends at least at that group's maximum over the column maxima |
| Comparator.ErrMaxBounds | csvdiff.cpp:214-217 | each running error maximum bounds the absolute and relative error of every row seen so far |
| Comparator.DiffRowCountZero | csvdiff.cpp:207-235 | no row is counted as differing exactly when every cell passes the OR test |
| Comparator.SelfCompare | csvdiff.cpp:212-221 | comparing a table with itself finds no differing row exactly when it has no rows or every column has a non-negative absolute or relative tolerance, whatever the scale |
| Comparator.RejectedCellListed | csvdiff.cpp:240-243 | every column holding a rejected cell has its largest absolute and largest relative error both above tolerance, so the summary lists it |
| Comparator.CompareRow | csvdiff.cpp:209-229 | the inner loop reports a differing line exactly when some cell of the row fails both tolerances, and extends each column's running error maxima by this row |
| Comparator.CompareRows | csvdiff.cpp:204-232 | `n_diff_lines` is the number of rows with a rejected cell, and the error arrays hold each column's largest absolute and relative error |
| Comparator.DiffCSV | csvdiff.cpp:152-253 | false with no cell read when the column or row counts differ; otherwise counts the rows with a cell outside tolerance under the widened scale (for the order in which the vector names are enumerated), and is true exactly when that count is 0 |
| Comparator.VectorExample | csvdiff.cpp:187-201 | columns `V_x`, `V_y`, `V_z` with maxima 1, 10, 3 all get scale 10 |
| Comparator.ContainmentExample | csvdiff.cpp:180-200 | a column `AV` without `_` still joins the group `V`, because membership is containment |
| Comparator.ToleranceExample | csvdiff.cpp:214-220 | a cell 4.0 vs 4.000001 with scale 4.0 fails the absolute tolerance 1e-10 but passes on the relative tolerance 1e-5 |

## Left out

- `main` and the TCLAP command line (csvdiff.cpp:256-307): argument parsing, exit codes and a foreign library.
- Opening the file, the "Failed to open" path (csvdiff.cpp:97-101) and the `seekg` rewind in `getNLines` (csvdiff.cpp:79-80). The model is given the file's lines as a sequence, so there is nothing to open or rewind.
- All `std::cout` output. The loader's messages become `LoadError` values. The verbose per-cell blocks (csvdiff.cpp:223-228) and the summary listing (csvdiff.cpp:237-250) are omitted. The summary's column filter is stated only as `Comparator.RejectedCellListed`.
- `str2number` (csvdiff.cpp:48-66), which is `stringstream` extraction. It is replaced by a `parse: string -> real` parameter about which nothing is assumed.
- IEEE-754 doubles: rounding, NaN and infinities. Values are exact reals.
- The iteration order of the `std::set` of vector names (csvdiff.cpp:177). `Comparator.VectorNames` enumerates the keys in first-occurrence order. All group lemmas hold for any duplicate-free key order, and `Comparator.DiffCSV` is stated for the order it used. When groups overlap, the final scale can depend on that order; no claim here depends on it.
- The `unsigned` counters and the product `n_rows * n_columns` are unbounded naturals. 32-bit wrap-around is not modelled.
- Text.Trim: returns the trimmed string instead of erasing from its argument, because strings are values here.
- Comparator.DiffCSV: drops the `verbose` flag, which only affects printing. It also returns `n_diff_lines`, which is 0 when the shapes differ.
- Comparator.DiffCSV: requires the tolerance vectors to cover every column when the shapes agree. The source indexes them without a check, and its command line builds them with one entry per column.
- Comparator.DiffCSV: requires both tables to satisfy `Table.Valid` (`|matrix| == n_rows * n_columns` and one name per column). A table produced by `Loader.ReadCSV` satisfies this.

## Findings

| source | as written | input that shows it | evidently intended | confidence | as-written member | corrected member |
|---|---|---|---|---|---|---|
| csvdiff.cpp:115-145 | `n_rows` is the non-blank line count minus one, but the header is the raw first line even when it is blank | the lines `"  "`, `"1"`, `"2"`: the header is one empty column name, `n_rows` is 1, and the second data line is written at offset 1 of a one-cell matrix | one matrix row per non-blank line after the header line | high; not executed | Loader.BlankHeaderOverrun | Loader.RowCount |

`Loader.AsWrittenRowCount` is the source's sizing. `Loader.BlankHeaderOneRowShort` shows that it is one row short whenever the first line is blank. `Loader.RowCountAsWritten` shows that it agrees with the corrected sizing otherwise. `Loader.ReadCSV` uses `Loader.RowCount`, so every write lands in bounds.

## Where the documented behaviour and the code differ

The model follows the code in each case:

- **Header.** csvdiff is described as taking its header from the first non-blank line. The code takes the first raw line (csvdiff.cpp:115), and `Loader.ReadCSV` does the same. This is the root of the finding above.
- **Vector groups.** A column is described as belonging to at most one vector group. Membership is substring containment (csvdiff.cpp:194), so a column can join several groups, and one without `_` can join one too (`Comparator.ContainmentExample`). The group lemmas therefore hold for any key order.
- **Self-comparison.** Comparing a table with itself is described as always succeeding, whatever the tolerances. The code rejects a zero error in a column whose two tolerances are both negative. `Comparator.SelfCompare` states the exact condition.
