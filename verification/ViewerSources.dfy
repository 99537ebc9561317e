/** The two sources behind the viewer's protocol: what each does with a job is what the protocol
    assumes of its worker. */
module ViewerSources {
  import opened TableSource
  import opened SqlitePaging
  import opened ViewerState
  import opened ViewerProtocol
  import Csv = CsvFileSource
  import opened CsvGrammar
  import Sqlite = SqliteTableSource

  /** What the protocol knows of the table of a SQLite source. */
  ghost predicate Describes(d: Data, source: Sqlite.SqliteTableSource)
  {
    d == Data(source.table, d.hasRowid, ANY_TEXT) && (d.hasRowid ==> source.keyed)
  }

  /** The worker runs a job on a SQLite source.  A cancelled query or sort may be repeated once. */
  method ExecuteSqlite(source: Sqlite.SqliteTableSource, job: Job, ghost d: Data, ghost lost: bool)
    returns (reply: Signal, ghost quiet: bool)
    requires source.Valid() && Describes(d, source)
    requires if job.OpenJob? then d.hasRowid == source.keyed else source.hasRowid == (d.hasRowid && !lost)
    modifies source
    ensures source.Valid() && (!job.OpenJob? ==> source.hasRowid == old(source.hasRowid))
    ensures Executes(d, false, false, lost, old(source.activeSort), job, reply, source.activeSort, source.hasRowid)
    ensures quiet ==> match job
      case OpenJob(_, _) => reply.ok && source.hasRowid == source.keyed
      case SortJob(_, _, sort) => reply.ok == (old(source.db && source.hasRowid) && sort.column < source.columnCount)
      case PageJob(_, _, query, size) =>
        old(source.db) ==> reply.result == Answer(source.table, source.hasRowid, source.activeSort, query, size)
  {
    hide Answer;
    match job
    case OpenJob(viewGen, opGen) =>
      var ok;
      ok, quiet := source.Open();
      reply := OpenCompleted(viewGen, opGen, ok, source.CanSort());
    case SortJob(viewGen, opGen, sort) =>
      var ok;
      ok, quiet := source.Sort(sort.column, sort.ascending);
      var again: bool := *;
      if !ok && again {
        ok, quiet := source.Sort(sort.column, sort.ascending);
      }
      reply := SortCompleted(viewGen, opGen, ok, if source.total.Some? then source.total.value else 0);
    case PageJob(viewGen, opGen, query, size) =>
      var result;
      result, quiet := QuerySqlite(source, query, size);
      var again: bool := *;
      if result == PageError(Cancelled) && again {
        result, quiet := QuerySqlite(source, query, size);
      }
      reply := PageReady(viewGen, opGen, result);
  }

  method QuerySqlite(source: Sqlite.SqliteTableSource, query: Query, size: int)
    returns (result: PageResult, ghost quiet: bool)
    requires source.Valid()
    modifies source`total
    ensures source.Valid() && source.Answers(result, query, size)
    ensures quiet && source.db ==> result == Answer(source.table, source.hasRowid, source.activeSort, query, size)
  {
    match query
    case FirstPage => result, quiet := source.First(size);
    case NextPage(token) => result, quiet := source.Next(token, size);
    case PrevPage(token) => result, quiet := source.Prev(token, size);
    case LastPage(total) => result, quiet := source.Last(size, Some(total));
  }

  /** The rows of a CSV view, known by their data ordinals. */
  function CsvTable(n: nat): (table: seq<TableRow>)
    ensures |table| == n && forall i | 0 <= i < n :: table[i] == TableRow(i, [])
  {
    seq(n, i => TableRow(i, []))
  }

  /** A decoded CSV page as the protocol sees it. */
  function AsPage(page: Csv.Page): (p: Page)
    ensures |p.rows| == |page.ordinals| && p.token == page.token && p.hasMore == page.hasMore
    ensures |p.texts| == Min(|page.rows|, |page.clamped|)
    ensures forall i | 0 <= i < |p.texts| :: p.texts[i] == RowText(page.rows[i], page.clamped[i])
  {
    var rows := seq(|page.ordinals|, i requires 0 <= i < |page.ordinals| => TableRow(page.ordinals[i], []));
    var n := Min(|page.rows|, |page.clamped|);
    Page(rows, page.token, page.hasMore,
         seq(n, i requires 0 <= i < n => RowText(page.rows[i], page.clamped[i])))
  }

  /** The records of a CSV file as the protocol sees them. */
  ghost function CsvData(file: seq<Byte>, delimiter: Byte): (d: Data)
    ensures !d.hasRowid && |d.table| == |Csv.DataRecords(Decode(file, delimiter))|
  {
    Data(CsvTable(|Csv.DataRecords(Decode(file, delimiter))|), false,
         (i, size, text: RowText) => i >= 0 && Csv.Displays(file, delimiter, i, size, text.cells, text.clamped))
  }

  lemma IndexBounds(source: Csv.CsvFileSource)
    requires source.Valid()
    ensures |source.index.contents| <= source.Total()
    ensures source.index.IsComplete() ==> |source.index.contents| == source.Total()
  {
  }

  lemma OrdinalsRun(source: Csv.CsvFileSource, page: Csv.Page, f: nat, size: int)
    requires source.PageShows(page, f, size)
    ensures |page.ordinals| == |page.rows|
    ensures forall k | 0 <= k < |page.rows| :: page.ordinals[k] == f + k < source.Total()
  {
    forall k | 0 <= k < |page.rows| ensures page.ordinals[k] == f + k < source.Total() {
      assert source.RowCorrect(page.rows[k], page.clamped[k], page.ordinals[k], f + k, size);
    }
  }

  /** A CSV page as the protocol sees it: consecutive records, and finality is never claimed too early;
      all rows of its range, unless a failure is latched. */
  ghost predicate CsvServes(source: Csv.CsvFileSource, page: Csv.Page, f: int, size: int, latched: bool)
    reads source
  {
    && source.PageShows(page, f, size) && f >= 0 && |page.rows| <= size
    && page.token.offset == f && page.token.valid == (page.rows != [])
    && (page.rows == [] ==> f >= source.Total()) && (!page.hasMore ==> f + |page.rows| >= source.Total())
    && (!latched ==> |page.rows| >= Min(size, source.Total() - f))
    && source.Whole() != [] && source.columnCount == |source.Whole()[0].fields|
  }

  lemma TextsDisplay(source: Csv.CsvFileSource, page: Csv.Page, f: nat, size: int)
    requires source.PageShows(page, f, size) && source.Whole() != [] && source.columnCount == |source.Whole()[0].fields|
    ensures |AsPage(page).texts| == |page.rows|
    ensures TextsFit(CsvData(source.file, source.delimiter), f, size, AsPage(page).texts)
  {
    hide Csv.Displays;
    forall k | 0 <= k < |page.rows|
      ensures Csv.Displays(source.file, source.delimiter, f + k, size, page.rows[k], page.clamped[k])
    {
      source.RowDisplays(page.rows[k], page.clamped[k], page.ordinals[k], f + k, size);
    }
  }

  lemma CsvServesFits(source: Csv.CsvFileSource, page: Csv.Page, query: Query, size: int, latched: bool)
    requires CsvServes(source, page, Target(query, size), size, latched)
    requires query.NextPage? || query.PrevPage? ==> query.token.valid
    ensures Answers(CsvData(source.file, source.delimiter), true, latched, false, None, query, size,
                    PageOk(AsPage(page)))
  {
    hide Csv.CsvFileSource.PageShows, TextsFit, Csv.Displays, Decode, Target;
    var f := Target(query, size);
    OrdinalsRun(source, page, f, size);
    TextsDisplay(source, page, f, size);
    RowsAreOrdinals(page, f, source.Total());
    SameTotal(source);
  }

  lemma SameTotal(source: Csv.CsvFileSource)
    ensures CsvData(source.file, source.delimiter).table == CsvTable(source.Total())
  {
    hide Decode;
  }

  /** The rows of a page with consecutive ordinals are a stretch of the table. */
  lemma RowsAreOrdinals(page: Csv.Page, f: nat, n: nat)
    requires |page.ordinals| == |page.rows|
    requires forall k | 0 <= k < |page.rows| :: page.ordinals[k] == f + k && page.ordinals[k] < n
    ensures AsPage(page).rows == Slice(CsvTable(n), f, |page.rows|)
    ensures page.rows != [] ==> f + |page.rows| <= n
  {
    if page.rows != [] {
      assert page.ordinals[|page.rows| - 1] < n;
    }
  }

  /** At any point of indexing, an ok page of the CSV source is one the protocol allows after a latched
      failure, and if it holds all rows of its range, also before. */
  lemma CsvPagesFit(source: Csv.CsvFileSource, page: Csv.Page, query: Query, size: int, latched: bool)
    requires source.Valid() && source.PageAnswers(page, Target(query, size), size)
    requires query.NextPage? || query.PrevPage? ==> query.token.valid
    requires !latched ==> |page.rows| >= Min(size, source.Total() - Target(query, size))
    requires source.IsOpen()
    ensures Answers(CsvData(source.file, source.delimiter), true, latched, false, None, query, size,
                    PageOk(AsPage(page)))
  {
    hide Csv.CsvFileSource.Valid, Csv.CsvFileSource.PageShows, Answers;
    IndexBounds(source);
    CsvServesFits(source, page, query, size, latched);
  }
}
