/** The one-shot parser: the whole file in memory, at most 100,000 rows. */
module CsvParser {
  import opened CsvGrammar
  import opened CsvMachine
  import opened CsvRecordScanner
  import opened PageRow

  const MAX_PARSER_ROWS := 100000

  datatype ParseResult =
    | Parsed(columns: nat, rows: seq<seq<seq<Byte>>>, truncated: bool)
    | EmptyFile | ParseFailed | NoDataFound

  function Least(a: nat, b: nat): nat {
    if a < b then a else b
  }

  /** A row shorter than the header is filled up with empty cells; a longer one keeps its surplus. */
  function Padded(fields: seq<seq<Byte>>, columns: nat): (row: seq<seq<Byte>>)
    ensures |row| == (if |fields| < columns then columns else |fields|)
    ensures forall c | 0 <= c < |row| :: row[c] == FieldAt(fields, c)
  {
    fields + seq(if |fields| < columns then columns - |fields| else 0, c => [])
  }

  /** Data rows among the callbacks so far, as the parser's own stop condition counts them. */
  function RowsSeen(events: seq<Event>): nat {
    if events == [] then 0
    else RowsSeen(events[..|events| - 1])
         + (if events[|events| - 1].RecordEnd? && events[|events| - 1].ordinal > 0 then 1 else 0)
  }

  lemma {:induction false} RowsSeenIsRecords(events: seq<Event>)
    requires CollectAll(NOTHING, events).inOrder
    ensures var n := |CollectAll(NOTHING, events).records|; RowsSeen(events) == (if n == 0 then 0 else n - 1)
    decreases |events|
  {
    if events != [] {
      RowsSeenIsRecords(events[..|events| - 1]);
    }
  }

  lemma {:induction false} RecordsHaveFields(s: seq<Byte>, lim: nat, i: nat, d: Byte, k: nat)
    requires i <= lim <= |s| && k < |Records(s, lim, i, d)|
    ensures Records(s, lim, i, d)[k].fields != []
  {
    RecordIsScan(s, lim, i, d, k);
  }

  predicate HaveFields(records: seq<Record>) {
    forall k | 0 <= k < |records| :: records[k].fields != []
  }

  /** Rows of the table built from the records so far. */
  ghost predicate TableOf(records: seq<Record>, columns: nat, rows: seq<seq<seq<Byte>>>) {
    if records == [] then columns == 0 && rows == []
    else
      && columns == |records[0].fields|
      && |rows| == Least(MAX_PARSER_ROWS, |records| - 1)
      && forall k | 0 <= k < |rows| :: rows[k] == records[k + 1].fields
  }

  /** The parser's callbacks over the events of a feed. */
  method BuildTable(events: seq<Event>) returns (columns: nat, rows: seq<seq<seq<Byte>>>, truncated: bool)
    requires CollectAll(NOTHING, events).inOrder
    requires HaveFields(CollectAll(NOTHING, events).records)
    ensures TableOf(CollectAll(NOTHING, events).records, columns, rows)
    ensures truncated == (|rows| >= MAX_PARSER_ROWS)
  {
    columns, rows, truncated := 0, [], false;
    var currentRow: seq<seq<Byte>>, currentCell: seq<Byte> := [], [];
    for i := 0 to |events|
      invariant var a := CollectAll(NOTHING, events[..i]);
        && currentRow == a.fields && currentCell == a.cell
        && TableOf(a.records, columns, rows)
      invariant truncated == (|rows| >= MAX_PARSER_ROWS)
    {
      TableStep(events, i);
      match events[i]
      case Fragment(_, bytes, isEnd) =>
        if |currentRow| < MAX_COLUMNS {
          currentCell := currentCell + bytes;
          if isEnd {
            currentRow, currentCell := currentRow + [currentCell], [];
          }
        }
      case RecordEnd(_, _, _) =>
        if columns == 0 {
          columns := |currentRow|;
        } else {
          if |rows| < MAX_PARSER_ROWS {
            rows := rows + [currentRow];
          }
          if |rows| >= MAX_PARSER_ROWS {
            truncated := true;
          }
        }
        currentRow, currentCell := [], [];
    }
    assert events[..|events|] == events;
  }

  lemma TableStep(events: seq<Event>, i: nat)
    requires i < |events| && CollectAll(NOTHING, events).inOrder
    requires HaveFields(CollectAll(NOTHING, events).records)
    ensures var a, n := CollectAll(NOTHING, events[..i]), CollectAll(NOTHING, events[..i + 1]);
      && n == Collect(a, events[i]) && n.inOrder
      && (a.records != [] ==> a.records[0].fields != [])
  {
    assert events[..i + 1][..i] == events[..i];
    Reaches(events, i);
    Reaches(events, i + 1);
  }

  /** What a parse delivers: the first 100,000 data records of the one-shot decode, padded. */
  ghost predicate ParsesTo(file: seq<Byte>, d: Byte, columns: nat, rows: seq<seq<seq<Byte>>>) {
    var rs := Decode(file, d);
    && rs != [] && columns == |rs[0].fields| && |rows| == Least(MAX_PARSER_ROWS, |rs| - 1)
    && forall k | 0 <= k < |rows| :: rows[k] == Padded(rs[k + 1].fields, columns)
  }

  /** Parses a whole file: the header and up to 100,000 data records of the one-shot decode. */
  method Parse(bytes: seq<Byte>, d: Byte) returns (result: ParseResult)
    requires ValidDelimiter(d) && d != 0
    ensures result != ParseFailed
    ensures result == EmptyFile <==> bytes == []
    ensures result == NoDataFound <==> bytes != [] && Decode(bytes, d) == []
    ensures result.Parsed? ==> ParsesTo(bytes, d, result.columns, result.rows) && result.columns > 0
    ensures result.Parsed? ==> result.truncated == (|Decode(bytes, d)| - 1 >= MAX_PARSER_ROWS)
  {
    if bytes == [] {
      return EmptyFile;
    }
    var scanner := new CsvRecordScanner(d);
    var feedOk, events := scanner.Feed(bytes, 0, true, (k: nat, ev: seq<Event>) => RowsSeen(ev) >= MAX_PARSER_ROWS);
    ParsedRecords(bytes, d, CollectAll(NOTHING, events).records, feedOk);
    RowsSeenIsRecords(events);
    var columns, rows, truncated := BuildTable(events);
    if !feedOk && !truncated {
      return ParseFailed;
    }
    if columns == 0 && rows == [] {
      return NoDataFound;
    }
    var table := [];
    for k := 0 to |rows|
      invariant |table| == k && forall j | 0 <= j < k :: table[j] == Padded(rows[j], columns)
    {
      table := table + [Padded(rows[k], columns)];
    }
    result := Parsed(columns, table, truncated);
  }

  lemma ParsedRecords(bytes: seq<Byte>, d: Byte, records: seq<Record>, feedOk: bool)
    requires ValidDelimiter(d)
    requires var whole := Ended(AfterProbe([] + bytes, d), d).acc.records;
      if feedOk then records == whole else records <= whole
    ensures if feedOk then records == Decode(bytes, d) else records <= Decode(bytes, d)
    ensures HaveFields(records)
  {
    assert [] + bytes == bytes;
    EndedDecodes(bytes, d);
    forall k | 0 <= k < |records| ensures records[k].fields != [] {
      RecordsHaveFields(bytes, |bytes|, BomLength(bytes), d, k);
    }
  }
}
