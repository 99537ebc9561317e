/** The paged source, its refetch and the one-shot parser tell the same story about a file. */
module CsvAgreement {
  import opened CsvGrammar
  import opened CsvMachine
  import opened CsvRecordScanner
  import opened CsvEncode
  import opened CsvFileSource
  import opened CsvParser
  import opened CsvRefetch
  import opened PageRow
  import opened Utf8

  /** A cell that was cut: the value is longer than the cap, the cell starts with as much of it as a safe
      cut leaves, and of valid UTF-8 that is all but at most three bytes of the cap. */
  ghost predicate CutOf(cell: seq<Byte>, value: seq<Byte>, cap: nat) {
    && |cell| <= cap < |value| && StartsWithCut(cell, value, cap)
    && (cap >= 3 && ValidUtf8(value) ==> cap - 3 <= |cell| && cell[..cap - 3] == value[..cap - 3])
  }

  lemma FlaggedIsCut(cell: seq<Byte>, value: seq<Byte>, cap: nat)
    requires Shows(cell, true, value, cap) && cap >= 3
    ensures CutOf(cell, value, cap)
  {
    if ValidUtf8(value) {
      FlaggedCell(cell, value, cap);
    }
  }

  /** Up to 100,000 rows, every cell of a page that is not flagged is the parser's cell, and every
      flagged one is a cell the parser has longer than the cap, cut. */
  lemma PageAgreesWithParser(source: CsvFileSource, page: Page, first: nat, pageSize: int, rows: seq<seq<seq<Byte>>>,
                             k: nat, c: nat)
    requires source.IsOpen() && source.PageShows(page, first, pageSize)
    requires ParsesTo(source.file, source.delimiter, source.columnCount, rows)
    requires k < |page.rows| && first + k < |rows| && c < source.columnCount
    ensures |page.rows[k]| == |page.clamped[k]| == source.columnCount <= |rows[first + k]|
    ensures if page.clamped[k][c] then
        CutOf(page.rows[k][c], rows[first + k][c], PerCellCap(pageSize, source.columnCount))
      else page.rows[k][c] == rows[first + k][c]
  {
    hide CutOf, StartsWithCut;
    assert source.RowCorrect(page.rows[k], page.clamped[k], page.ordinals[k], first + k, pageSize);
    assert rows[first + k] == Padded(source.Row(first + k).fields, source.columnCount);
    var cap, value := PerCellCap(pageSize, source.columnCount), FieldAt(source.Row(first + k).fields, c);
    assert Shows(page.rows[k][c], page.clamped[k][c], value, cap);
    if page.clamped[k][c] {
      FlaggedIsCut(page.rows[k][c], value, cap);
    }
  }

  /** A cell that is not flagged is what a refetch of it returns; a flagged one is a cut of it. */
  lemma RefetchAgrees(source: CsvFileSource, page: Page, first: nat, pageSize: int, k: nat, columns: seq<int>,
                      values: seq<seq<Byte>>, j: nat)
    requires source.PageShows(page, first, pageSize) && k < |page.rows| && page.ordinals[k] < source.Total()
    requires InRange(columns, source.columnCount) && j < |columns|
    requires values == ValuesAt(source.Row(page.ordinals[k]).fields, columns)
    ensures |page.rows[k]| == |page.clamped[k]| == source.columnCount && 0 <= columns[j] < source.columnCount
    ensures |values| == |columns|
    ensures if page.clamped[k][columns[j]] then
        CutOf(page.rows[k][columns[j]], values[j], PerCellCap(pageSize, source.columnCount))
      else page.rows[k][columns[j]] == values[j]
  {
    hide CutOf, StartsWithCut;
    assert source.RowCorrect(page.rows[k], page.clamped[k], page.ordinals[k], first + k, pageSize);
    var cap, value := PerCellCap(pageSize, source.columnCount), FieldAt(source.Row(first + k).fields, columns[j]);
    assert Shows(page.rows[k][columns[j]], page.clamped[k][columns[j]], value, cap);
    if page.clamped[k][columns[j]] {
      FlaggedIsCut(page.rows[k][columns[j]], value, cap);
    }
  }

  /** A file has at most 256 columns as far as the scanner is concerned. */
  lemma ColumnsBounded(source: CsvFileSource)
    requires source.IsOpen()
    ensures source.columnCount <= MAX_COLUMNS
  {
    RecordIsScan(source.file, |source.file|, BomLength(source.file), source.delimiter, 0);
  }

  /** The decoded cells of a served page take at most 32 MiB, for every page size the settings allow. */
  lemma ServedPageFitsBudget(source: CsvFileSource, page: Page, first: nat, pageSize: nat)
    requires source.IsOpen() && source.PageShows(page, first, pageSize)
    requires 100 <= pageSize <= 3000 && |page.rows| <= pageSize
    ensures PageBytes(page.rows) <= PAGE_BUDGET
  {
    ColumnsBounded(source);
    forall r | 0 <= r < |page.rows|
      ensures |page.rows[r]| == source.columnCount
      ensures forall c | 0 <= c < source.columnCount :: |page.rows[r][c]| <= PerCellCap(pageSize, source.columnCount)
    {
      assert source.RowCorrect(page.rows[r], page.clamped[r], page.ordinals[r], first + r, pageSize);
    }
    PageFitsBudget(page.rows, pageSize, source.columnCount);
  }

  /** A table that is written and scanned back, in any chunks, returns. */
  method ScanWritten(table: seq<seq<seq<Byte>>>, chunks: seq<seq<Byte>>, d: Byte, marked: bool)
    returns (records: seq<Record>)
    requires Encodable(table) && ValidDelimiter(d) && d != 0
    requires chunks != [] && Joined(chunks) == Written(table, d, marked)
    ensures FieldsOf(records) == table
    ensures records != [] ==> records[0].start == if marked then 3 else 0
  {
    WrittenDecodes(table, d, marked);
    records := ScanChunks(chunks, d);
  }

  /** A table that is written, with a byte order mark or without one, and parsed back: its rows return, padded to
      the width of its header, up to 100,000 of them; the parser says that it cut the file off just if there are
      that many, and rows are missing just if there are more. */
  method ParseWritten(table: seq<seq<seq<Byte>>>, d: Byte, marked: bool) returns (result: ParseResult)
    requires Encodable(table) && table != [] && ValidDelimiter(d) && d != 0
    ensures result.Parsed? && result.columns == |table[0]|
    ensures |result.rows| == Least(MAX_PARSER_ROWS, |table| - 1)
    ensures forall k | 0 <= k < |result.rows| :: result.rows[k] == Padded(table[k + 1], result.columns)
    ensures result.truncated <==> |table| - 1 >= MAX_PARSER_ROWS
    ensures |result.rows| < |table| - 1 <==> |table| - 1 > MAX_PARSER_ROWS
  {
    var bytes := Written(table, d, marked);
    WrittenDecodes(table, d, marked);
    FieldsOfAt(Decode(bytes, d));
    EncodedFirst(table, d);
    result := Parse(bytes, d);
  }

  /** At the limit the flag is wrong: all 100,000 rows of this file are there, yet it counts as cut off. */
  method ParseAtTheLimit(d: Byte) returns (table: seq<seq<seq<Byte>>>, result: ParseResult)
    requires ValidDelimiter(d) && d != 0
    ensures |table| == MAX_PARSER_ROWS + 1
    ensures result.Parsed? && result.truncated && result.rows == table[1..]
  {
    table := seq(MAX_PARSER_ROWS + 1, k => [[QUOTE]]);
    result := ParseWritten(table, d, false);
    assert forall k | 0 <= k < |result.rows| :: result.rows[k] == table[1..][k];
  }
}
