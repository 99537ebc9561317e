/** What becomes of page requests once indexing has stopped short of the end of the file: after a
    failed stat, which leaves no trace, and after a failed scan or a failure of the index's disk, which
    are final. */
module StoppedIndexing {
  import opened CsvGrammar
  import opened CsvMachine
  import opened CsvRecordScanner
  import opened CsvRecordIndex
  import opened CsvFileSource
  import opened SourceWorker
  import opened TableSource

  /** Parameters that are not wrong in themselves. */
  predicate CouldBeServed(query: Query, pageSize: int) {
    Target(query, pageSize) >= 0 && pageSize > 0 && !BeyondOffsets(query, pageSize)
  }

  /** The page sent for a request, if one was. */
  function PageSent(viewGen: nat, opGen: nat, result: Option<PageResult>): seq<Signal> {
    if result.Some? then [PageReady(viewGen, opGen, result.value)] else []
  }

  lemma PagesOfPages(viewGen: nat, opGen: nat, result: Option<PageResult>)
    ensures SourceWorker.PagesIn(PageSent(viewGen, opGen, result)) == PageSent(viewGen, opGen, result)
  {
    SourceWorker.PagesInListed(if result.Some? then Some(PageReady(viewGen, opGen, result.value)) else None);
  }

  // ---- A stat that failed ----------------------------------------------------------------

  /** The stat of the last queued slice fails, then a page is asked for, then whatever is queued
      runs.  As long as the new request is the newest one, it is answered just if the index covered
      it already; otherwise it stays parked with nothing queued that could wake it.  The only pages
      sent are the rejection of what was parked before and that answer. */
  method AskAfterFailedStat(worker: SourceWorker, query: Query, pageSize: int, cancel: CancelCheck)
    returns (opGen: nat, rejected: Option<PageResult>, answer: Option<PageResult>)
    requires worker.Valid() && worker.Indexing() && worker.slices == [worker.gens.viewGen]
    modifies worker, worker.gens, worker.source, worker.source.index, worker.source.indexScanner
    ensures worker.Valid() && worker.slices == [] && worker.SameFile(old(worker.FileOf()))
    ensures worker.SameSource(old(worker.source), old(worker.Scanner()))
    ensures !worker.IsStale(old(worker.gens.viewGen), opGen) ==> worker.Indexed() == old(worker.Indexed())
    ensures !worker.IsStale(old(worker.gens.viewGen), opGen) ==>
      && (rejected.Some? ==> old(worker.parked).Some?)
      && SourceWorker.PagesIn(worker.signals) == SourceWorker.PagesIn(old(worker.signals))
        + (if rejected.Some? then PageSent(old(worker.parked.value.viewGen), old(worker.parked.value.opGen),
            rejected) else [])
        + PageSent(old(worker.gens.viewGen), opGen, answer)
    ensures !worker.IsStale(old(worker.gens.viewGen), opGen) ==>
      if CouldBeServed(query, pageSize) && |old(worker.source.index.contents)| < Target(query, pageSize) + pageSize then
        && answer == None
        && worker.parked == Some(PendingPageRequest(old(worker.gens.viewGen), opGen, Target(query, pageSize),
             pageSize, query))
      else answer.Some? && worker.parked == None
  {
    hide SourceWorker.Faithful, SourceWorker.ServedWell, SourceWorker.PagesIn, CsvFileSource.Valid;
    hide CsvFileSource.IsOpen;
    var viewGen := worker.gens.viewGen;
    ghost var quiet, tick, late;
    rejected, quiet, tick := worker.IndexSlice(cancel, StatFailure, true);
    worker.PagesSent(old(worker.signals), old(worker.parked), tick, rejected);
    worker.CountedRows();
    opGen := worker.gens.opGen;
    ghost var before := worker.signals;
    answer, quiet := worker.Request(viewGen, opGen, query, pageSize, cancel);
    SourceWorker.PagesInAppend(before, PageSent(viewGen, opGen, answer));
    PagesOfPages(viewGen, opGen, answer);
    if worker.slices != [] {
      late := worker.Drain(cancel);
    }
  }

  /** An open that leaves bytes of the file to be indexed, in a worker with nothing else to do.  All that
      is indexed are the records behind the header that the first `sampled` bytes deliver. */
  method OpenOnly(worker: SourceWorker, bytes: seq<Byte>, d: Byte, cancel: CancelCheck)
    returns (isOpen: bool, incomplete: bool, ghost sampled: nat)
    requires worker.Valid() && worker.slices == [] && ValidDelimiter(d) && d != 0
    modifies worker, worker.gens, worker.source, if worker.source != null then {worker.source.index} else {}
    ensures worker.Valid() && (worker.source == old(worker.source)
        || (worker.source != null && fresh(worker.source) && fresh(worker.source.index)))
    ensures incomplete ==> worker.source != null && worker.source.indexScanner != null
    ensures incomplete ==> worker.Indexing() && fresh(worker.source.indexScanner)
    ensures incomplete ==> worker.slices == [worker.gens.viewGen] && worker.gens.viewGen == old(worker.gens.viewGen)
    ensures incomplete ==> worker.source.file == bytes && worker.source.delimiter == d
    ensures isOpen ==> !Unreadable(bytes, d) && SampleEnds(bytes, d, sampled)
    ensures incomplete <==> isOpen && sampled < |bytes|
    ensures incomplete ==> |worker.source.index.contents| + 1 == |Delivered(bytes, sampled, d)|
    ensures !incomplete ==> worker.slices == []
  {
    hide CsvFileSource.Valid, Unreadable, TooLittleBefore, Enough, Decode, Delivered;
    var viewGen := worker.gens.viewGen;
    isOpen, incomplete, sampled := false, false, 0;
    var outcome, _ := worker.OpenDescriptor(viewGen, worker.gens.opGen, bytes, d, cancel);
    if outcome.Some? && outcome.value {
      isOpen, incomplete, sampled := true, worker.source.knownTotal.None?, worker.source.scanOffset;
    }
  }

  /** Any open that does not reach the end of the file may lead there: the request then waits for good just
      if the sample of the open does not cover what it asks for. */
  method OpenThenFailStat(worker: SourceWorker, bytes: seq<Byte>, d: Byte, query: Query, pageSize: int,
                          cancel: CancelCheck)
    returns (isOpen: bool, incomplete: bool, opGen: nat, answer: Option<PageResult>, ghost sampled: nat)
    requires worker.Valid() && worker.slices == [] && ValidDelimiter(d) && d != 0
    modifies worker, worker.gens, worker.source, if worker.source != null then {worker.source.index} else {}
    ensures worker.Valid() && worker.slices == []
    ensures isOpen ==> !Unreadable(bytes, d) && SampleEnds(bytes, d, sampled)
    ensures incomplete <==> isOpen && sampled < |bytes|
    ensures incomplete && !worker.IsStale(old(worker.gens.viewGen), opGen) ==>
      if CouldBeServed(query, pageSize) && |Delivered(bytes, sampled, d)| - 1 < Target(query, pageSize) + pageSize then
        && answer == None && worker.parked.Some?
        && worker.parked.value.query == query && worker.parked.value.pageSize == pageSize
      else answer.Some? && worker.parked == None
  {
    hide CsvFileSource.Valid, CsvFileSource.IsOpen, Unreadable, SampleEnds, Delivered, Decode;
    opGen, answer := 0, None;
    isOpen, incomplete, sampled := OpenOnly(worker, bytes, d, cancel);
    if !incomplete {
      return;
    }
    var rejected;
    opGen, rejected, answer := AskAfterFailedStat(worker, query, pageSize, cancel);
  }

  // ---- A scan that failed ----------------------------------------------------------------

  /** The answer of an index that has stopped behind `n` of `total` data records, when nothing interferes: a
      start beyond them is told to wait, though nothing will ever come; any other start gets what is there,
      and that is what was asked for just if the page ends, or the file does, within the first `n`. */
  ghost predicate CutShort(source: CsvFileSource, result: PageResult, query: Query, pageSize: int, n: int)
    reads source
  {
    var f := Target(query, pageSize);
    if f >= n then result == PageError(NotIndexedYet)
    else
      && result.PageOk? && |result.page.rows| == Min(pageSize, n - f)
      && source.PageShows(result.page, f, pageSize) && result.page.hasMore
      && (|result.page.rows| == Min(pageSize, source.Total() - f) <==> n >= Min(f + pageSize, source.Total()))
  }

  /** The read of the last queued slice fails, then a page is asked for.  No request is parked any more, and
      undisturbed answers are cut short. */
  method AskAfterFailedScan(worker: SourceWorker, query: Query, pageSize: int, cancel: CancelCheck)
    returns (opGen: nat, answer: Option<PageResult>, ghost calm: bool)
    requires worker.Valid() && worker.Indexing() && worker.slices == [worker.gens.viewGen]
    modifies worker, worker.gens, worker.source, worker.source.index, worker.source.indexScanner
    ensures worker.Valid() && worker.SameFile(old(worker.FileOf()))
    ensures worker.SameSource(old(worker.source), old(worker.Scanner()))
    ensures !worker.IsStale(old(worker.gens.viewGen), opGen) ==>
      && worker.Indexed() == old(worker.Indexed()) && worker.Stopped() && worker.slices == [] && worker.parked == None
      && answer.Some?
      && (calm && WellFormed(query, pageSize) ==>
            CutShort(worker.source, answer.value, query, pageSize, |old(worker.source.index.contents)|))
  {
    hide CsvFileSource.Valid, CsvFileSource.IsOpen, CsvFileSource.PageShows, SourceWorker.ServedWell;
    hide SourceWorker.Faithful, CutShort, WellFormed, SourceWorker.Sent, SourceWorker.SlicedAnswer;
    var viewGen := worker.gens.viewGen;
    ghost var quiet;
    var rejected, _, tick := worker.IndexSlice(cancel, StatSame, false);
    opGen := worker.gens.opGen;
    ghost var covered := worker.Covered(query, pageSize);
    answer, quiet := worker.Request(viewGen, opGen, query, pageSize, cancel);
    calm := worker.source.Undisturbed(quiet, cancel);
    if answer.Some? {
      FaithfulIsCutShort(worker, answer.value, query, pageSize, covered, quiet, cancel);
    }
  }

  /** Of an incomplete index without any other failure. */
  lemma FaithfulIsCutShort(worker: SourceWorker, result: PageResult, query: Query, pageSize: int, covered: bool,
                           quiet: bool, cancel: CancelCheck)
    requires worker.source != null && !worker.source.index.completeFlag
    requires worker.Faithful(result, query, pageSize, covered, quiet, cancel)
    ensures worker.source.Undisturbed(quiet, cancel) && WellFormed(query, pageSize) ==>
      CutShort(worker.source, result, query, pageSize, |worker.source.index.contents|)
  {
    hide CsvFileSource.PageShows, SourceWorker.ServedWell;
  }

  /** ... and so are the answers behind any open that does not reach the end of the file, once a read has
      failed: `sampled` bytes are all that will ever be indexed. */
  method OpenThenFailScan(worker: SourceWorker, bytes: seq<Byte>, d: Byte, query: Query, pageSize: int,
                          cancel: CancelCheck)
    returns (isOpen: bool, incomplete: bool, opGen: nat, answer: Option<PageResult>, ghost sampled: nat,
             ghost calm: bool)
    requires worker.Valid() && worker.slices == [] && ValidDelimiter(d) && d != 0
    modifies worker, worker.gens, worker.source, if worker.source != null then {worker.source.index} else {}
    ensures worker.Valid()
    ensures isOpen ==> !Unreadable(bytes, d) && SampleEnds(bytes, d, sampled)
    ensures incomplete <==> isOpen && sampled < |bytes|
    ensures incomplete ==>
      worker.source != null && worker.source.file == bytes && worker.source.delimiter == d
    ensures !incomplete ==> answer == None && !calm
    ensures incomplete && !worker.IsStale(old(worker.gens.viewGen), opGen) ==>
      && worker.slices == [] && worker.parked == None && answer.Some?
      && (calm && WellFormed(query, pageSize) ==>
            CutShort(worker.source, answer.value, query, pageSize, |Delivered(bytes, sampled, d)| - 1))
  {
    hide CsvFileSource.Valid, CsvFileSource.IsOpen, Unreadable, SampleEnds, Delivered, Decode, CutShort;
    hide SourceWorker.Valid, SourceWorker.Indexing;
    opGen, answer, calm := 0, None, false;
    isOpen, incomplete, sampled := OpenOnly(worker, bytes, d, cancel);
    if !incomplete {
      return;
    }
    opGen, answer, calm := AskAfterFailedScan(worker, query, pageSize, cancel);
  }

  // ---- A disk of the index that failed -----------------------------------------------------

  /** Once the disk of the index has failed, in whatever way, a request is never parked.  If it is answered
      undisturbed, it learns that the file has changed, that its start is not indexed yet, which is what
      even the end of a complete index is called then, or that the index cannot be read. */
  method AskAfterFailedIndex(worker: SourceWorker, query: Query, pageSize: int, cancel: CancelCheck)
    returns (answer: Option<PageResult>, ghost calm: bool)
    requires worker.Valid() && worker.source != null && worker.source.index.failed
    modifies worker, worker.gens, worker.source, worker.source.index
    ensures worker.Valid() && worker.parked == None && worker.source == old(worker.source)
    ensures worker.source.index.failed && worker.Indexed() == old(worker.Indexed())
    ensures answer == None ==> worker.IsStale(old(worker.gens.viewGen), old(worker.gens.opGen))
    ensures answer.Some? && calm && WellFormed(query, pageSize) ==>
      answer.value == PageError(
        if worker.source.sourceChanged then SourceChanged
        else if Target(query, pageSize) >= |worker.source.index.contents| then NotIndexedYet
        else SpansUnreadable)
  {
    hide CsvFileSource.Valid, CsvFileSource.IsOpen, SourceWorker.ServedWell, SourceWorker.Exact;
    ghost var quiet;
    answer, quiet := worker.Request(worker.gens.viewGen, worker.gens.opGen, query, pageSize, cancel);
    calm := quiet && NeverFires(cancel);
  }

  // ---- A file with which it happens --------------------------------------------------------

  const COMMA: Byte := 0x2C

  /** `n` lines with one letter each. */
  function Letters(n: nat): (s: seq<Byte>)
    ensures |s| == 2 * n
  {
    if n == 0 then [] else Letters(n - 1) + [0x61, LF]
  }

  lemma {:induction false} LettersPrefix(n: nat, k: nat)
    requires k <= n
    ensures Letters(n)[..2 * k] == Letters(k)
    decreases n - k
  {
    if k < n {
      LettersPrefix(n, k + 1);
      assert Letters(n)[..2 * k] == Letters(n)[..2 * k + 2][..2 * k];
    }
  }

  /** Between two lines, with `k` records delivered. */
  predicate BetweenLines(m: Machine, k: nat) {
    |m.acc.records| == k && m.mode == Bare && !m.saw && !m.afterCr
  }

  lemma LetterLine(m: Machine, k: nat)
    requires BetweenLines(m, k)
    ensures BetweenLines(Run(m, [0x61, LF], COMMA), k + 1)
  {
    var line: seq<Byte> := [0x61, LF];
    RunHead(m, line, COMMA);
    RunHead(Step(m, 0x61, COMMA), line[1..], COMMA);
    assert line[1..][1..] == [];
  }

  /** Behind each line the machine has one more record and is about to start the next. */
  lemma {:induction false} LettersRun(n: nat)
    ensures BetweenLines(Run(Init(0), Letters(n), COMMA), n)
  {
    if n > 0 {
      hide BetweenLines, Run;
      LettersRun(n - 1);
      RunAppend(Init(0), Letters(n - 1), [0x61, LF], COMMA);
      LetterLine(Run(Init(0), Letters(n - 1), COMMA), n - 1);
    }
  }

  lemma LettersStart(n: nat)
    requires n >= 2
    ensures BomLength(Letters(n)) == 0
  {
    LettersPrefix(n, 1);
    assert Letters(1) == [0x61, LF];
    assert Letters(n)[0] == Letters(n)[..2][0];
  }

  /** The first `k` lines deliver `k` records. */
  lemma LettersDelivered(n: nat, k: nat)
    requires 2 <= k <= n
    ensures |Delivered(Letters(n), 2 * k, COMMA)| == k && |Decode(Letters(n), COMMA)| == n
  {
    hide Letters, Run;
    LettersPrefix(n, k);
    LettersStart(k);
    LettersStart(n);
    LettersRun(k);
    LettersRun(n);
    assert Letters(k)[0..] == Letters(k) && Letters(n)[0..] == Letters(n);
    EndedDecodes(Letters(n), COMMA);
  }

  /** Of 150,000 such lines an open samples one chunk: the header and 131,071 of the 149,999 data records. */
  lemma LettersSampled(o: nat)
    requires SampleEnds(Letters(150000), COMMA, o)
    ensures o == CHUNK_SIZE && |Delivered(Letters(150000), o, COMMA)| == 131072
    ensures !Unreadable(Letters(150000), COMMA) && |Decode(Letters(150000), COMMA)| == 150000
  {
    hide Delivered, Decode, Letters;
    var s := Letters(150000);
    LettersDelivered(150000, 131072);
    assert 2 * 131072 == CHUNK_SIZE;
    assert Enough(s, COMMA, CHUNK_SIZE);
    assert SampleEnds(s, COMMA, CHUNK_SIZE);
    SampleFindsHeader(s, COMMA, o);
  }

  /** An open of that file, a failed read, and a request behind the page of ordinal 130,000: of the 1,000
      rows that are there 71 are shown.  One page further the request is told to wait. */
  method LettersCutShort(cancel: CancelCheck, further: bool)
    returns (isOpen: bool, answer: Option<PageResult>, ghost calm: bool)
    ensures answer == None ==> !isOpen || !calm
    ensures answer.Some? && calm ==>
      if further then answer.value == PageError(NotIndexedYet)
      else answer.value.PageOk? && |answer.value.page.rows| == 71 && answer.value.page.hasMore
  {
    hide CsvFileSource.Valid, CsvFileSource.IsOpen, Unreadable, SampleEnds, Delivered, Decode, Letters;
    var gens := new Generations(1, 1);
    var worker := new SourceWorker(gens);
    var token := PageToken(2, 3, if further then 131000 else 130000, true);
    var incomplete, opGen;
    ghost var sampled;
    isOpen, incomplete, opGen, answer, sampled, calm :=
      OpenThenFailScan(worker, Letters(150000), COMMA, NextPage(token), 1000, cancel);
    if isOpen {
      LettersSampled(sampled);
    }
    calm := calm && !worker.IsStale(1, opGen);
    answer := if worker.IsStale(1, opGen) then None else answer;
  }

  /** An open of that file, a failed stat, and the same request: it waits with nothing queued, although 1,000
      rows are there and 71 of them are indexed. */
  method LettersWait(cancel: CancelCheck) returns (worker: SourceWorker, isOpen: bool, opGen: nat)
    ensures worker.Valid() && worker.slices == []
    ensures isOpen && !worker.IsStale(1, opGen) ==>
      worker.parked.Some? && worker.parked.value.query == NextPage(PageToken(2, 3, 130000, true))
  {
    hide CsvFileSource.Valid, CsvFileSource.IsOpen, Unreadable, SampleEnds, Delivered, Decode, Letters;
    var gens := new Generations(1, 1);
    worker := new SourceWorker(gens);
    var query := NextPage(PageToken(2, 3, 130000, true));
    var incomplete, answer;
    ghost var sampled;
    isOpen, incomplete, opGen, answer, sampled :=
      OpenThenFailStat(worker, Letters(150000), COMMA, query, 1000, cancel);
    if isOpen {
      LettersSampled(sampled);
    }
  }
}
