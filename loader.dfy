/**
 * The table loader of csvdiff (`getNLines`, `CSVData`, `readCSV`), over an
 * in-memory sequence of lines instead of a file. Numbers are `real`s and the
 * text-to-number conversion is a parameter.
 */
module Loader {
  import opened Text

  // ---------------------------------------------------------------------
  // The table
  // ---------------------------------------------------------------------

  /** `CSVData`: column names and a dense row-major matrix of `nRows * nColumns` values. */
  datatype Table = Table(columnNames: seq<string>, nColumns: nat, nRows: nat, matrix: seq<real>)
  {
    predicate Valid()
    {
      nColumns == |columnNames| && |matrix| == nRows * nColumns
    }

    /** The value in row `i`, column `j`: `matrix[i * nColumns + j]`. */
    function Cell(i: nat, j: nat): real
      requires Valid() && i < nRows && j < nColumns
    {
      OffsetInBounds(i, j, nRows, nColumns);
      matrix[i * nColumns + j]
    }
  }

  /** A row-major offset of a cell inside the matrix lies inside the matrix. */
  lemma OffsetInBounds(i: nat, j: nat, rows: nat, cols: nat)
    requires i < rows && j < cols
    ensures i * cols + j < rows * cols
  {
    assert i * cols + j < (i + 1) * cols;
    MulMono(i + 1, rows, cols);
  }

  lemma MulMono(a: nat, b: nat, n: nat)
    requires a <= b
    ensures a * n <= b * n
  {
  }

  /** Why `readCSV` returns null; the source reports each on standard output. */
  datatype LoadError =
    | EmptyOrSingleLine
    | NoColumns
    | ColumnCountMismatch(line: nat, found: nat, expected: nat)

  datatype LoadResult = Loaded(table: Table) | Failed(error: LoadError)

  // ---------------------------------------------------------------------
  // Lines
  // ---------------------------------------------------------------------

  /** A line that `trim` (of spaces) leaves empty. */
  predicate Blank(line: string)
  {
    Trimmed(line, ' ') == []
  }

  /** The non-blank lines of `ls`, space-trimmed, in order. */
  function NonBlank(ls: seq<string>): seq<string>
  {
    if ls == [] then []
    else
      var t := Trimmed(ls[|ls| - 1], ' ');
      NonBlank(ls[..|ls| - 1]) + (if t == [] then [] else [t])
  }

  lemma {:induction false} NonBlankAppend(a: seq<string>, b: seq<string>)
    ensures NonBlank(a + b) == NonBlank(a) + NonBlank(b)
    decreases |b|
  {
    if b != [] {
      var b' := b[..|b| - 1];
      assert (a + b)[..|a + b| - 1] == a + b';
      NonBlankAppend(a, b');
    } else {
      assert a + b == a;
    }
  }

  /** The non-blank lines of a prefix come first among those of the whole. */
  lemma NonBlankPrefix(ls: seq<string>, i: nat)
    requires i <= |ls|
    ensures NonBlank(ls[..i]) <= NonBlank(ls)
  {
    assert ls == ls[..i] + ls[i..];
    NonBlankAppend(ls[..i], ls[i..]);
  }

  /** One more line adds its trimmed text when it is not blank. */
  lemma NonBlankSnoc(ls: seq<string>, i: nat)
    requires i < |ls|
    ensures NonBlank(ls[..i + 1]) ==
      NonBlank(ls[..i]) + (if Blank(ls[i]) then [] else [Trimmed(ls[i], ' ')])
  {
    assert ls[..i + 1][..i] == ls[..i];
  }

  /** The first line adds one to the count of non-blank lines exactly when it is not blank. */
  lemma NonBlankFirst(lines: seq<string>)
    requires lines != []
    ensures |NonBlank(lines)| == |NonBlank(lines[1..])| + (if Blank(lines[0]) then 0 else 1)
  {
    assert lines == [lines[0]] + lines[1..];
    NonBlankAppend([lines[0]], lines[1..]);
    assert [lines[0]][..0] == [];
  }

  /** Every line `NonBlank` keeps is non-empty and has no leading or trailing space. */
  lemma {:induction false} NonBlankTrimmed(ls: seq<string>)
    ensures forall k :: 0 <= k < |NonBlank(ls)| ==> NonBlank(ls)[k] != [] && Trimmed(NonBlank(ls)[k], ' ') == NonBlank(ls)[k]
  {
    if ls != [] {
      NonBlankTrimmed(ls[..|ls| - 1]);
      TrimmedIdempotent(ls[|ls| - 1], ' ');
    }
  }

  /** `getNLines`: counts the lines that are not blank after trimming spaces. */
  method GetNLines(lines: seq<string>) returns (n: nat)
    ensures n == |NonBlank(lines)|
  {
    n := 0;
    for i := 0 to |lines|
      invariant n == |NonBlank(lines[..i])|
    {
      assert lines[..i + 1][..i] == lines[..i];
      var line := Trim(lines[i], ' ');
      if line != [] {
        n := n + 1;
      }
    }
    assert lines[..|lines|] == lines;
  }

  // ---------------------------------------------------------------------
  // Rows
  // ---------------------------------------------------------------------

  /** The fields of every non-blank line of `data`, in order. */
  function RowFields(data: seq<string>, delim: char): seq<seq<string>>
  {
    var nb := NonBlank(data);
    seq(|nb|, k requires 0 <= k < |nb| => Fields(nb[k], delim))
  }

  /** The fields of every non-blank line after the header line, in order. */
  function DataRows(lines: seq<string>, delim: char): seq<seq<string>>
    requires lines != []
  {
    RowFields(lines[1..], delim)
  }

  /**
   * One line of the data loop: a blank line leaves the row count as it is;
   * any other line is the next data row, whose fields are those of its
   * trimmed text.
   */
  lemma LineStep(data: seq<string>, i: nat, delim: char)
    requires i < |data|
    ensures |NonBlank(data[..i + 1])| <= |NonBlank(data)|
    ensures Blank(data[i]) ==> |NonBlank(data[..i + 1])| == |NonBlank(data[..i])|
    ensures !Blank(data[i]) ==>
      |NonBlank(data[..i + 1])| == |NonBlank(data[..i])| + 1 &&
      RowFields(data, delim)[|NonBlank(data[..i])|] == Fields(Trimmed(data[i], ' '), delim)
  {
    NonBlankSnoc(data, i);
    NonBlankPrefix(data, i + 1);
  }

  /** The index of the first row whose field count is not `n`, or `|rows|` when there is none. */
  function FirstMismatch(rows: seq<seq<string>>, n: nat, from: nat := 0): (m: nat)
    requires from <= |rows|
    ensures from <= m <= |rows|
    decreases |rows| - from
  {
    if from == |rows| || |rows[from]| != n then from else FirstMismatch(rows, n, from + 1)
  }

  /** Every row before the first mismatch has `n` fields, and the row at it (if any) does not. */
  lemma {:induction false} FirstMismatchSpec(rows: seq<seq<string>>, n: nat, from: nat := 0)
    requires from <= |rows|
    ensures var m := FirstMismatch(rows, n, from);
      (forall k :: from <= k < m ==> |rows[k]| == n) && (m < |rows| ==> |rows[m]| != n)
    decreases |rows| - from
  {
    if from < |rows| && |rows[from]| == n {
      FirstMismatchSpec(rows, n, from + 1);
    }
  }

  /** Conversely, an index with only matching rows before it and a mismatch (or the end) at it is the first mismatch. */
  lemma {:induction false} FirstMismatchIs(rows: seq<seq<string>>, n: nat, m: nat, from: nat := 0)
    requires from <= m <= |rows|
    requires forall k :: from <= k < m ==> |rows[k]| == n
    requires m < |rows| ==> |rows[m]| != n
    ensures FirstMismatch(rows, n, from) == m
    decreases m - from
  {
    if from < m {
      FirstMismatchIs(rows, n, m, from + 1);
    }
  }

  /** One data row as `str2number` converts it. */
  function ParsedRow(fields: seq<string>, parse: string -> real): (r: seq<real>)
    ensures |r| == |fields|
  {
    seq(|fields|, j requires 0 <= j < |fields| => parse(fields[j]))
  }

  /** Rows laid end to end: the row-major layout of the matrix. */
  function Flatten(rows: seq<seq<real>>): seq<real>
  {
    if rows == [] then [] else Flatten(rows[..|rows| - 1]) + rows[|rows| - 1]
  }

  /** In a row-major layout of rows of length `n`, row `k` starts at `k * n`. */
  lemma {:induction false} FlattenAt(rows: seq<seq<real>>, n: nat, k: nat, j: nat)
    requires forall i :: 0 <= i < |rows| ==> |rows[i]| == n
    requires k < |rows| && j < n
    ensures |Flatten(rows)| == |rows| * n
    ensures k * n + j < |Flatten(rows)| && Flatten(rows)[k * n + j] == rows[k][j]
  {
    var init := rows[..|rows| - 1];
    FlattenLength(init, n);
    assert |Flatten(rows)| == |init| * n + n;
    assert |init| * n + n == |rows| * n;
    if k < |rows| - 1 {
      FlattenAt(init, n, k, j);
    } else {
      assert k * n + j == |init| * n + j;
    }
  }

  lemma {:induction false} FlattenLength(rows: seq<seq<real>>, n: nat)
    requires forall i :: 0 <= i < |rows| ==> |rows[i]| == n
    ensures |Flatten(rows)| == |rows| * n
  {
    if rows != [] {
      FlattenLength(rows[..|rows| - 1], n);
      assert |rows| * n == (|rows| - 1) * n + n;
    }
  }

  // ---------------------------------------------------------------------
  // readCSV
  // ---------------------------------------------------------------------

  /**
   * What the loop of `readCSV` stores for `rows` non-blank data lines of
   * `n` fields each: their parsed values, row after row.
   */
  predicate Stored(matrix: seq<real>, rows: seq<seq<string>>, count: nat, n: nat, parse: string -> real)
    requires count <= |rows|
  {
    count * n <= |matrix| &&
    matrix[..count * n] == Flatten(seq(count, k requires 0 <= k < count => ParsedRow(rows[k], parse)))
  }

  /**
   * `t` is the table of column names `header` whose rows are the parsed
   * fields of `rows`, cell by cell; every row has one field per column.
   */
  predicate LoadedFrom(t: Table, header: seq<string>, rows: seq<seq<string>>, parse: string -> real)
  {
    t.Valid() && t.columnNames == header && t.nColumns == |header| && t.nRows == |rows| &&
    (forall k :: 0 <= k < |rows| ==> |rows[k]| == |header|) &&
    forall k, j :: 0 <= k < |rows| && 0 <= j < |header| ==> t.Cell(k, j) == parse(rows[k][j])
  }

  /**
   * `readCSV`: counts the non-blank lines and fails when there are fewer
   * than two; splits the first line into the column names and fails when
   * there are none; then, for every non-blank line after it, trims and
   * splits it, fails on a field count that differs from the header's
   * (reporting the line's number among the non-blank lines, the header
   * being line 1), and stores its parsed values as the next matrix row.
   * The matrix holds one row per non-blank line after the header line.
   */
  method ReadCSV(lines: seq<string>, delim: char, parse: string -> real) returns (r: LoadResult)
    ensures |NonBlank(lines)| < 2 ==> r == Failed(EmptyOrSingleLine)
    ensures |NonBlank(lines)| >= 2 ==>
      var header := Fields(lines[0], delim);
      var rows := DataRows(lines, delim);
      var m := FirstMismatch(rows, |header|);
      if header == [] then r == Failed(NoColumns)
      else if m < |rows| then r == Failed(ColumnCountMismatch(m + 2, |rows[m]|, |header|))
      else r.Loaded? && LoadedFrom(r.table, header, rows, parse)
  {
    var nLines := GetNLines(lines);
    if nLines < 2 {
      return Failed(EmptyOrSingleLine);
    }
    var header := Split(lines[0], delim);
    if |header| == 0 {
      return Failed(NoColumns);
    }
    r := LoadMatrix(lines, delim, parse, header);
  }

  /**
   * The rest of `readCSV` once the header has columns: sizes the matrix for
   * the non-blank lines after the header, then fills it, failing at the
   * first line whose field count differs from the header's.
   */
  method LoadMatrix(lines: seq<string>, delim: char, parse: string -> real, header: seq<string>) returns (r: LoadResult)
    requires lines != [] && header != []
    ensures var rows := DataRows(lines, delim); var m := FirstMismatch(rows, |header|);
      m < |rows| ==> r == Failed(ColumnCountMismatch(m + 2, |rows[m]|, |header|))
    ensures var rows := DataRows(lines, delim);
      FirstMismatch(rows, |header|) == |rows| ==> r.Loaded?
    ensures var rows := DataRows(lines, delim);
      r.Loaded? ==> LoadedFrom(r.table, header, rows, parse)
  {
    var nLines := GetNLines(lines);
    var nRows := RowCount(lines, nLines);
    var nColumns := |header|;
    MulMono(0, nRows, nColumns);
    var matrix := new real[nRows * nColumns];
    r := ReadRows(lines, delim, parse, header, nRows, matrix);
  }

  /**
   * `n_rows`: the non-blank line count less the header line, which is only
   * counted when it is not blank.
   */
  method RowCount(lines: seq<string>, nLines: nat) returns (nRows: nat)
    requires lines != [] && nLines == |NonBlank(lines)|
    ensures nRows == |NonBlank(lines[1..])|
  {
    var first := Trim(lines[0], ' ');
    NonBlankFirst(lines);
    nRows := if first == [] then nLines else nLines - 1;
  }

  /**
   * The loop of `readCSV` over the lines after the header: trims each line,
   * skips the blank ones, numbers the others from 2, splits each, and stops
   * at the first whose field count is not the matrix width `nColumns`,
   * reporting its number and field count; until then stores each row's
   * parsed values as the next matrix row.
   */
  method FillRows(lines: seq<string>, delim: char, parse: string -> real, nColumns: nat, nRows: nat,
                  matrix: array<real>, ghost rowsFields: seq<seq<string>>)
    returns (mismatch: bool, rows: nat, currentLine: nat, found: nat)
    requires lines != [] && rowsFields == DataRows(lines, delim)
    requires nRows == |NonBlank(lines[1..])| && matrix.Length == nRows * nColumns
    modifies matrix
    ensures rows == FirstMismatch(rowsFields, nColumns) && (mismatch <==> rows < |rowsFields|)
    ensures mismatch ==> currentLine == rows + 2 && found == |rowsFields[rows]|
    ensures forall k :: 0 <= k < rows ==> |rowsFields[k]| == nColumns
    ensures Stored(matrix[..], rowsFields, rows, nColumns, parse)
  {
    ghost var data := lines[1..];
    currentLine, found := 1, 0;
    rows := 0;
    for i := 0 to |lines| - 1
      invariant rows == |NonBlank(data[..i])| <= nRows
      invariant currentLine == rows + 1
      invariant forall k :: 0 <= k < rows ==> |rowsFields[k]| == nColumns
      invariant Stored(matrix[..], rowsFields, rows, nColumns, parse)
    {
      var differs;
      differs, rows, found := NextLine(lines, delim, parse, nColumns, nRows, matrix, rowsFields, i, rows);
      if differs {
        return true, rows, rows + 2, found;
      }
      currentLine := rows + 1;
    }
    assert data[..|lines| - 1] == data;
    FirstMismatchIs(rowsFields, nColumns, rows);
    mismatch := false;
  }

  /**
   * One step of the loop of `readCSV`: data line `i` (the line after the
   * header being line 0) is trimmed; a blank one is skipped, any other is
   * loaded as matrix row `rows`, or reported when its field count differs.
   */
  method NextLine(lines: seq<string>, delim: char, parse: string -> real, nColumns: nat, nRows: nat,
                  matrix: array<real>, ghost rowsFields: seq<seq<string>>, i: nat, rows: nat)
    returns (differs: bool, rows': nat, found: nat)
    requires i < |lines| - 1 && rowsFields == DataRows(lines, delim)
    requires nRows == |NonBlank(lines[1..])| && matrix.Length == nRows * nColumns
    requires rows == |NonBlank(lines[1..][..i])| <= |rowsFields|
    requires forall k :: 0 <= k < rows ==> |rowsFields[k]| == nColumns
    requires Stored(matrix[..], rowsFields, rows, nColumns, parse)
    modifies matrix
    ensures differs ==> rows' == rows == FirstMismatch(rowsFields, nColumns) < |rowsFields|
    ensures differs ==> found == |rowsFields[rows]|
    ensures !differs ==> rows' == |NonBlank(lines[1..][..i + 1])| <= nRows
    ensures forall k :: 0 <= k < rows' ==> |rowsFields[k]| == nColumns
    ensures Stored(matrix[..], rowsFields, rows', nColumns, parse)
  {
    LineStep(lines[1..], i, delim);
    var line := Trim(lines[i + 1], ' ');
    rows', found := rows, 0;
    if line == [] {
      return false, rows', found;
    }
    differs, found := LoadLine(line, delim, parse, nColumns, nRows, matrix, rowsFields, rows);
    if !differs {
      rows' := rows + 1;
    }
  }

  /**
   * One non-blank data line: splits it and, when its field count is the
   * matrix width, stores its parsed values as matrix row `rows`; otherwise
   * reports the count, this row being the first mismatch.
   */
  method LoadLine(line: string, delim: char, parse: string -> real, nColumns: nat, nRows: nat,
                  matrix: array<real>, ghost rowsFields: seq<seq<string>>, rows: nat)
    returns (differs: bool, found: nat)
    requires rows < |rowsFields| == nRows && rowsFields[rows] == Fields(line, delim)
    requires matrix.Length == nRows * nColumns
    requires forall k :: 0 <= k < rows ==> |rowsFields[k]| == nColumns
    requires Stored(matrix[..], rowsFields, rows, nColumns, parse)
    modifies matrix
    ensures differs ==> found == |rowsFields[rows]| && FirstMismatch(rowsFields, nColumns) == rows
    ensures differs ==> matrix[..] == old(matrix[..])
    ensures !differs ==> |rowsFields[rows]| == nColumns && Stored(matrix[..], rowsFields, rows + 1, nColumns, parse)
  {
    var values := Split(line, delim);
    if |values| != nColumns {
      FirstMismatchIs(rowsFields, nColumns, rows);
      return true, |values|;
    }
    MulMono(rows + 1, nRows, nColumns);
    StoreRow(matrix, rows, nColumns, values, parse, rowsFields);
    differs, found := false, 0;
  }

  /**
   * The data rows of `readCSV`: fills the matrix, then either reports the
   * first line whose field count differs from the header's or hands back
   * the table.
   */
  method ReadRows(lines: seq<string>, delim: char, parse: string -> real, header: seq<string>,
                  nRows: nat, matrix: array<real>) returns (r: LoadResult)
    requires lines != [] && nRows == |NonBlank(lines[1..])| && matrix.Length == nRows * |header|
    modifies matrix
    ensures var rows := DataRows(lines, delim); var m := FirstMismatch(rows, |header|);
      m < |rows| ==> r == Failed(ColumnCountMismatch(m + 2, |rows[m]|, |header|))
    ensures var rows := DataRows(lines, delim);
      FirstMismatch(rows, |header|) == |rows| ==> r.Loaded?
    ensures var rows := DataRows(lines, delim);
      r.Loaded? ==> LoadedFrom(r.table, header, rows, parse)
  {
    var nColumns := |header|;
    ghost var rowsFields := DataRows(lines, delim);
    var mismatch, rows, currentLine, found := FillRows(lines, delim, parse, nColumns, nRows, matrix, rowsFields);
    if mismatch {
      return Failed(ColumnCountMismatch(currentLine, found, nColumns));
    }
    var table := Table(header, nColumns, nRows, matrix[..]);
    StoredCells(table, header, rowsFields, parse);
    return Loaded(table);
  }

  /**
   * A table whose matrix is the row-major layout of parsed rows of
   * `nColumns` fields each holds, in every cell, the parsed field.
   */
  lemma StoredCells(table: Table, header: seq<string>, rowsFields: seq<seq<string>>, parse: string -> real)
    requires table.Valid() && table.columnNames == header && table.nRows == |rowsFields|
    requires forall k :: 0 <= k < |rowsFields| ==> |rowsFields[k]| == table.nColumns
    requires Stored(table.matrix, rowsFields, table.nRows, table.nColumns, parse)
    ensures LoadedFrom(table, header, rowsFields, parse)
  {
    var n, rows := table.nColumns, table.nRows;
    var parsed := seq(rows, k requires 0 <= k < rows => ParsedRow(rowsFields[k], parse));
    assert table.matrix == table.matrix[..rows * n];
    forall k, j | 0 <= k < rows && 0 <= j < n
      ensures table.Cell(k, j) == parse(rowsFields[k][j])
    {
      FlattenAt(parsed, n, k, j);
    }
  }

  /** The inner loop of `readCSV`: writes the parsed fields of one line at `row * n + j`. */
  method StoreRow(matrix: array<real>, row: nat, n: nat, values: seq<string>, parse: string -> real,
                  ghost rowsFields: seq<seq<string>>)
    requires |values| == n && row < |rowsFields| && rowsFields[row] == values
    requires (row + 1) * n <= matrix.Length
    requires Stored(matrix[..], rowsFields, row, n, parse)
    modifies matrix
    ensures Stored(matrix[..], rowsFields, row + 1, n, parse)
    ensures matrix[row * n + n..] == old(matrix[row * n + n..])
  {
    assert (row + 1) * n == row * n + n;
    ghost var before := matrix[..row * n];
    for j := 0 to n
      invariant matrix[..row * n] == before
      invariant forall j' :: 0 <= j' < j ==> matrix[row * n + j'] == parse(values[j'])
      invariant matrix[row * n + n..] == old(matrix[row * n + n..])
    {
      matrix[row * n + j] := parse(values[j]);
    }
    ghost var parsed := seq(row + 1, k requires 0 <= k < row + 1 => ParsedRow(rowsFields[k], parse));
    assert parsed[..row] == seq(row, k requires 0 <= k < row => ParsedRow(rowsFields[k], parse));
    assert matrix[row * n..row * n + n] == ParsedRow(values, parse);
    assert matrix[..(row + 1) * n] == before + matrix[row * n..row * n + n];
  }

  // ---------------------------------------------------------------------
  // Row count as written
  // ---------------------------------------------------------------------

  /** `n_rows` as the source sets it: the non-blank line count minus one for the header. */
  function AsWrittenRowCount(lines: seq<string>): int
  {
    |NonBlank(lines)| - 1
  }

  /**
   * When the header line is not blank, the rows `ReadCSV` loads are exactly
   * the source's `n_lines - 1`.
   */
  lemma RowCountAsWritten(lines: seq<string>, delim: char)
    requires lines != [] && !Blank(lines[0])
    ensures |DataRows(lines, delim)| == AsWrittenRowCount(lines)
  {
    NonBlankFirst(lines);
  }

  /** A non-empty line without the delimiter is one field. */
  lemma SingleField(s: string, d: char)
    requires s != [] && d !in s
    ensures Fields(s, d) == [CleanField(s)]
  {
    assert s[0..|s|] == s;
    FindFromLeast(s, d, 0, |s|);
    MapPiecesFromStep(s, d, 0, CleanField);
    assert MapPiecesFrom(s, d, |s| + 1, CleanField) == [];
  }

  /**
   * With a blank first line the source's `n_rows` is one short: the header
   * line is not counted among the non-blank lines, yet one is subtracted
   * for it, so every non-blank line after it needs a row and there is room
   * for one fewer.
   */
  lemma BlankHeaderOneRowShort(lines: seq<string>, delim: char)
    requires lines != [] && Blank(lines[0])
    ensures |DataRows(lines, delim)| == AsWrittenRowCount(lines) + 1
  {
    NonBlankFirst(lines);
  }

  lemma ExampleLines()
    ensures NonBlank(["  ", "1", "2"]) == ["1", "2"]
    ensures NonBlank(["1", "2"]) == ["1", "2"]
  {
    assert "  "[..1] == " " && " "[..0] == [];
    assert Trimmed("  ", ' ') == [];
    assert Trimmed("1", ' ') == "1";
    assert Trimmed("2", ' ') == "2";
    assert ["1", "2"][..1] == ["1"];
    assert ["  ", "1", "2"][..2] == ["  ", "1"];
    assert ["  ", "1"][..1] == ["  "];
    assert ["  "][..0] == [];
  }

  lemma ExampleFields()
    ensures Fields("  ", ',') == [""]
    ensures Fields("1", ',') == ["1"] && Fields("2", ',') == ["2"]
  {
    SingleField("  ", ',');
    SingleField("1", ',');
    SingleField("2", ',');
    assert "  "[..1] == " " && " "[..0] == [];
    assert Trimmed("  ", ' ') == [];
    assert Trimmed([], '"') == [];
    assert Trimmed("1", ' ') == "1" && Trimmed("1", '"') == "1";
    assert Trimmed("2", ' ') == "2" && Trimmed("2", '"') == "2";
  }

  /**
   * With a first line of spaces only, the source sizes the matrix for one
   * row fewer than the data lines it then stores: for the lines
   * `"  "`, `"1"`, `"2"` the header is one empty column name, `n_rows` is 1,
   * both data lines have one field, and the second is written at offset
   * `1 * 1 + 0`, past a matrix of one cell.
   */
  lemma BlankHeaderOverrun()
    ensures var lines := ["  ", "1", "2"];
      Fields(lines[0], ',') == [""] &&
      AsWrittenRowCount(lines) == 1 &&
      DataRows(lines, ',') == [["1"], ["2"]] &&
      FirstMismatch(DataRows(lines, ','), 1) == 2 &&
      1 * 1 + 0 >= AsWrittenRowCount(lines) * 1
  {
    var lines := ["  ", "1", "2"];
    ExampleLines();
    ExampleFields();
    assert lines[1..] == ["1", "2"];
    var rows := DataRows(lines, ',');
    assert rows == [["1"], ["2"]];
    FirstMismatchIs(rows, 1, 2);
  }
}
