/** The paged CSV source: the file is indexed in slices, and a page is decoded by re-scanning
    the stored spans of its records.  At every point of indexing its pages agree with the
    one-shot decode of the file. */
module CsvFileSource {
  import opened CsvGrammar
  import opened CsvMachine
  import opened CsvRecordScanner
  import opened CsvRecordIndex
  import opened PageRow
  import opened CsvRefetch
  import opened TableSource
  import opened Utf8

  const MAX_SAMPLE_ROWS := 200
  const CHUNK_SIZE := 256 * 1024
  const MAX_SAMPLE_SCAN_BYTES := 2 * 1024 * 1024
  const MAX_HEADER_SCAN_BYTES := 2 * 1024 * 1024
  const MIN_SLICE_BYTES := 4096

  datatype SourceError =
    | InvalidPageParameters | SourceChanged | StatFailed | Cancelled | NotIndexedYet
    | SpansUnreadable | ReadFailed | InvalidToken | TotalRequired | NotOpen | IndexFailed | ScanFailed
    | MissingOrdinal | OrdinalOutOfRange | CopyBudgetExceeded

  /** One page.  `ordinals` are the data ordinals of its rows, the keys of a later refetch. */
  datatype Page = Page(rows: seq<seq<seq<Byte>>>, clamped: seq<seq<bool>>, ordinals: seq<int>, token: PageToken,
                       hasMore: bool)
  datatype PageResult = PageOk(page: Page) | PageError(error: SourceError)

  datatype Readiness = Ready | Pending | End | Failed

  datatype IndexProgress = IndexProgress(indexedRows: nat, isComplete: bool, error: Option<SourceError>)

  /** What asking the system about the open file comes to. */
  datatype StatOutcome = StatSame | StatChanged | StatFailure

  datatype RefetchResult = RefetchOk(columns: seq<int>, values: seq<seq<Byte>>) | RefetchError(error: SourceError)

  /** The data records: all but the header. */
  function DataRecords(rs: seq<Record>): seq<Record> {
    if rs == [] then [] else rs[1..]
  }

  function SpansOf(rs: seq<Record>): (spans: seq<Span>)
    ensures |spans| == |rs| && forall k | 0 <= k < |rs| :: spans[k] == Span(rs[k].start, rs[k].end)
  {
    seq(|rs|, k requires 0 <= k < |rs| => Span(rs[k].start, rs[k].end))
  }

  function DataSpans(rs: seq<Record>): seq<Span> {
    SpansOf(DataRecords(rs))
  }

  ghost predicate SpansForward(rs: seq<Record>) {
    forall k | 0 <= k < |rs| :: rs[k].start <= rs[k].end
  }

  lemma DataSpansPrefix(a: seq<Record>, b: seq<Record>)
    requires a <= b
    ensures DataSpans(a) <= DataSpans(b)
  {
    if a != [] {
      forall k | 0 <= k < |DataSpans(a)| ensures DataSpans(a)[k] == DataSpans(b)[k] {
        assert a[k + 1] == b[k + 1];
      }
    }
  }

  /** The sample scan has seen enough in the first `o` bytes: 200 data rows behind the header, or 2 MiB. */
  ghost predicate Enough(bytes: seq<Byte>, d: Byte, o: nat)
    requires o <= |bytes|
  {
    |Delivered(bytes, o, d)| > MAX_SAMPLE_ROWS || o >= MAX_SAMPLE_SCAN_BYTES
  }

  /** The sample scan ends behind `o` bytes: at the first whole chunk that gives it enough, or else at the
      end of the file. */
  ghost predicate SampleEnds(bytes: seq<Byte>, d: Byte, o: nat) {
    && 0 < o <= |bytes|
    && (o < |bytes| ==> o % CHUNK_SIZE == 0 && Enough(bytes, d, o))
    && TooLittleBefore(bytes, d, o)
  }

  /** No whole chunk before `o` gives it enough. */
  ghost predicate TooLittleBefore(bytes: seq<Byte>, d: Byte, o: nat)
    requires o <= |bytes|
  {
    forall e | 0 < e < o && e % CHUNK_SIZE == 0 :: !Enough(bytes, d, e)
  }

  /** The first `o` bytes are a number of chunks, or the file, and have not given it enough. */
  ghost predicate SampleGoesOn(bytes: seq<Byte>, d: Byte, o: nat) {
    && o <= |bytes| && TooLittleBefore(bytes, d, o)
    && (o < |bytes| ==> o % CHUNK_SIZE == 0) && (0 < o < |bytes| ==> !Enough(bytes, d, o))
  }

  lemma SampleBegins(bytes: seq<Byte>, d: Byte)
    ensures SampleGoesOn(bytes, d, 0)
  {
  }

  lemma NextChunk(bytes: seq<Byte>, d: Byte, o: nat, next: nat)
    requires o < |bytes| && next == Min(o + CHUNK_SIZE, |bytes|) && SampleGoesOn(bytes, d, o)
    ensures if next < |bytes| && !Enough(bytes, d, next) then SampleGoesOn(bytes, d, next)
            else SampleEnds(bytes, d, next)
    ensures next == |bytes| ==> SampleGoesOn(bytes, d, next)
  {
    hide Enough;
  }

  /** A file without a record, or without a complete one in the window searched for a header. */
  ghost predicate Unreadable(bytes: seq<Byte>, d: Byte) {
    Decode(bytes, d) == [] || (|bytes| > MAX_HEADER_SCAN_BYTES && Delivered(bytes, MAX_HEADER_SCAN_BYTES, d) == [])
  }

  /** Every sample scan ends at the same place, and it finds a header just if the file is readable. */
  lemma SampleFindsHeader(bytes: seq<Byte>, d: Byte, o: nat)
    requires ValidDelimiter(d) && SampleEnds(bytes, d, o)
    ensures forall e | SampleEnds(bytes, d, e) :: e == o
    ensures Unreadable(bytes, d) <==> (if o < |bytes| then Delivered(bytes, o, d) else Decode(bytes, d)) == []
    ensures o < |bytes| && Unreadable(bytes, d) ==> o == MAX_HEADER_SCAN_BYTES
    ensures o <= MAX_SAMPLE_SCAN_BYTES
  {
    hide Delivered, Decode;
    assert o > MAX_SAMPLE_SCAN_BYTES ==> Enough(bytes, d, MAX_SAMPLE_SCAN_BYTES);
    DeliveredIsPrefix(bytes, o, d);
    if |bytes| > MAX_HEADER_SCAN_BYTES {
      DeliveredGrows(bytes, o, MAX_HEADER_SCAN_BYTES, d);
    }
  }

  lemma DataSpansStep(rs: seq<Record>, r: Record)
    requires rs != []
    ensures DataSpans(rs + [r]) == DataSpans(rs) + [Span(r.start, r.end)]
  {
    assert (rs + [r])[1..] == rs[1..] + [r];
  }

  /** Where indexing stands between two slices. */
  datatype Sample = Sample(sampling: bool, fields: nat, rows: nat, hasHeader: bool, columns: nat)

  class CsvFileSource {
    var file: seq<Byte>            // the bytes of the opened file
    var fileSize: nat
    var sourceChanged: bool        // latched: the file was seen to change
    var delimiter: Byte
    const index: CsvRecordIndex
    var columnCount: nat           // the frozen schema
    var knownTotal: Option<nat>
    var scanOffset: nat
    var indexScanner: CsvRecordScanner?
    var scanFailed: bool
    var sample: Sample

    /** The one-shot decode of the file. */
    ghost function Whole(): seq<Record>
      reads `file, `delimiter
    {
      Decode(file, delimiter)
    }

    ghost predicate Valid()
      reads `file, `fileSize, `delimiter, `knownTotal, `scanOffset, `indexScanner, `scanFailed, `sample
      reads index, indexScanner
    {
      Coherent() && (indexScanner != null && !index.completeFlag && !index.failed && !scanFailed ==>
          scanOffset < |file|)
    }

    ghost predicate Coherent()
      reads `file, `fileSize, `delimiter, `knownTotal, `scanOffset, `indexScanner, `scanFailed, `sample
      reads index, indexScanner
    {
      && ValidDelimiter(delimiter) && delimiter != 0
      && IndexSound()
      && (index.completeFlag && !index.failed ==>
           index.contents == DataSpans(Whole()) && knownTotal == Some(|index.contents|))
      && (index.completeFlag ==> !scanFailed)
      && (indexScanner != null ==> fileSize == |file| && sample.hasHeader)
      && (indexScanner != null && !index.completeFlag ==> Scanned(indexScanner))
    }

    /** The index holds the spans of the first data records of the file. */
    ghost predicate IndexSound()
      reads `file, `delimiter, index
    {
      index.Valid() && index.contents <= DataSpans(Whole())
    }

    /** Unless the scan has stopped for good, everything before `scanOffset` is indexed and the
        scanner can go on from there. */
    ghost predicate Scanned(scanner: CsvRecordScanner)
      reads `file, `delimiter, `scanOffset, `scanFailed, `sample, index, scanner
    {
      && scanOffset <= |file| && IndexSound()
      && (!index.failed && !scanFailed ==> if scanOffset < |file| then AtOffset(scanner) else AtEnd())
    }

    ghost predicate AtEnd()
      reads `file, `delimiter, `sample, index`contents
    {
      && index.contents == DataSpans(Whole())
      && sample.hasHeader == (Whole() != [])
      && (sample.hasHeader ==> sample.columns == |Whole()[0].fields|)
    }

    ghost predicate AtOffset(scanner: CsvRecordScanner)
      reads `file, `delimiter, `scanOffset, `sample, index`contents, scanner
    {
      && scanOffset <= |file| && ScannerAt(scanner, scanOffset)
      && index.contents == DataSpans(scanner.acc.records)
      && SampleAgrees(scanner.acc)
    }

    /** The scanner has consumed exactly the first `offset` bytes of the file. */
    ghost predicate ScannerAt(scanner: CsvRecordScanner, offset: nat)
      requires offset <= |file|
      reads `file, `delimiter, scanner
    {
      && scanner.Valid() && scanner.delimiter == delimiter
      && scanner.Scanned() == AfterProbe(file[..offset], delimiter)
      && scanner.pos == offset
    }

    ghost predicate SampleAgrees(acc: Collected)
      reads `sample
    {
      && sample.hasHeader == (acc.records != [])
      && (sample.hasHeader ==> sample.columns == |acc.records[0].fields|)
      && (sample.sampling ==>
            sample.fields == |acc.fields| && sample.rows == Min(MAX_SAMPLE_ROWS, |DataRecords(acc.records)|))
    }

    constructor (d: Byte)
      requires ValidDelimiter(d) && d != 0
      ensures Valid() && fresh(index) && indexScanner == null && !sourceChanged
    {
      file, fileSize, sourceChanged, delimiter := [], 0, false, d;
      columnCount, knownTotal, scanOffset, indexScanner, scanFailed := 0, None, 0, null, false;
      sample := Sample(false, 0, 0, false, 0);
      index := new CsvRecordIndex();
    }

    // ---- File access -----------------------------------------------------------------------

    /** Reads a range of the file; `io` says whether the system can.  Nothing is asked of it for an empty
        range. */
    method ReadBytes(offset: nat, size: nat, io: bool) returns (ok: bool, bytes: seq<Byte>)
      ensures ok == (size == 0 || (io && offset + size <= |file|))
      ensures ok && offset + size <= |file| ==> bytes == file[offset..offset + size]
    {
      ok, bytes := size == 0 || (io && offset + size <= |file|), [];
      if ok && size > 0 {
        bytes := file[offset..offset + size];
      }
    }

    /** Compares the identity of the open file with the one recorded at open.  A change is
        latched; a stat that fails is reported but leaves no trace. */
    method VerifyUnchanged(stat: StatOutcome) returns (error: Option<SourceError>)
      modifies `sourceChanged
      ensures sourceChanged == (old(sourceChanged) || stat == StatChanged)
      ensures error ==
        if sourceChanged then Some(SourceChanged) else if stat == StatFailure then Some(StatFailed) else None
    {
      if sourceChanged {
        return Some(SourceChanged);
      }
      if stat == StatFailure {
        return Some(StatFailed);
      }
      if stat == StatChanged {
        sourceChanged := true;
        return Some(SourceChanged);
      }
      return None;
    }

    // ---- Indexing --------------------------------------------------------------------------

    /** While nothing has failed the index holds the data spans collected so far; after a failure
        it holds the ones before it. */
    ghost predicate Tracks(acc: Collected)
      reads this, index
    {
      && index.Valid() && scanFailed == index.failed
      && index.contents <= DataSpans(acc.records)
      && (!scanFailed ==> index.contents == DataSpans(acc.records) && SampleAgrees(acc))
      && (acc.records == [] ==> sample.sampling)
    }

    /** A record callback. */
    method OnRecord(ordinal: nat, start: nat, end: nat, ghost a: Collected)
      requires Tracks(a) && ordinal == |a.records| && start <= end
      modifies index, `sample, `scanFailed
      ensures Tracks(Collect(a, RecordEnd(ordinal, start, end)))
      ensures index.completeFlag == old(index.completeFlag) && sample.sampling == old(sample.sampling)
      ensures old(index.contents) <= index.contents && (old(sample.hasHeader) ==> sample.hasHeader)
    {
      ghost var n := Collect(a, RecordEnd(ordinal, start, end));
      DataSpansPrefix(a.records, n.records);
      if ordinal == 0 {
        // The header record fixes the number of columns
        sample := sample.(columns := sample.fields, hasHeader := true, fields := 0);
      } else {
        DataSpansStep(a.records, Record(start, end, a.fields));
        var appended, _ := index.AppendSpan(start, end);
        if !appended {
          scanFailed := true;
        } else {
          var counted := sample.sampling && sample.rows < MAX_SAMPLE_ROWS;
          sample := sample.(rows := if counted then sample.rows + 1 else sample.rows, fields := 0);
        }
      }
    }

    /** A fragment callback: while sampling, completed fields are counted. */
    method OnFragment(e: Event, ghost a: Collected)
      requires Tracks(a) && e.Fragment?
      modifies `sample
      ensures Tracks(Collect(a, e)) && sample.sampling == old(sample.sampling)
      ensures sample.hasHeader == old(sample.hasHeader)
    {
      if sample.sampling && e.isEnd {
        sample := sample.(fields := sample.fields + 1);
      }
    }

    /** All callbacks of one feed, which began when the scan had collected `acc0`. */
    method Deliver(events: seq<Event>, ghost acc0: Collected)
      requires Tracks(acc0)
      requires CollectAll(acc0, events).inOrder && SpansForward(CollectAll(acc0, events).records)
      modifies index, `sample, `scanFailed
      ensures Tracks(CollectAll(acc0, events))
      ensures index.completeFlag == old(index.completeFlag) && sample.sampling == old(sample.sampling)
      ensures old(index.contents) <= index.contents && (old(sample.hasHeader) ==> sample.hasHeader)
    {
      hide Tracks, CollectAll, SpansForward;
      NothingCollected(acc0);
      assert events[..0] == [];
      for i := 0 to |events|
        invariant Tracks(CollectAll(acc0, events[..i])) && (old(sample.hasHeader) ==> sample.hasHeader)
        invariant index.completeFlag == old(index.completeFlag) && sample.sampling == old(sample.sampling)
        invariant old(index.contents) <= index.contents
      {
        ghost var a := CollectAll(acc0, events[..i]);
        DeliverStep(events, i, acc0);
        match events[i]
        case Fragment(_, _, _) => OnFragment(events[i], a);
        case RecordEnd(ordinal, start, end) => OnRecord(ordinal, start, end, a);
      }
      assert events[..|events|] == events;
    }

    lemma NothingCollected(a: Collected)
      ensures CollectAll(a, []) == a
    {
    }

    lemma DeliverStep(events: seq<Event>, i: nat, acc0: Collected)
      requires i < |events|
      requires CollectAll(acc0, events).inOrder && SpansForward(CollectAll(acc0, events).records)
      ensures var a, n := CollectAll(acc0, events[..i]), CollectAll(acc0, events[..i + 1]);
        n == Collect(a, events[i]) && (events[i].RecordEnd? ==>
            events[i].ordinal == |a.records| && events[i].start <= events[i].end)
    {
      var a, n := CollectAll(acc0, events[..i]), CollectAll(acc0, events[..i + 1]);
      assert events[..i + 1][..i] == events[..i];
      assert events == events[..i + 1] + events[i + 1..];
      CollectAllAppend(acc0, events[..i + 1], events[i + 1..]);
      CollectGrows(n, events[i + 1..]);
      if events[i].RecordEnd? {
        assert n.records[|a.records|] == Record(events[i].start, events[i].end, a.fields);
      }
    }

    /** Feeds the bytes of one slice. */
    method FeedSlice(scanner: CsvRecordScanner, offset: nat, chunk: seq<Byte>, isEof: bool, cancel: CancelCheck)
      returns (ok: bool, events: seq<Event>)
      requires offset + |chunk| <= |file| && chunk == file[offset..offset + |chunk|] && chunk != []
      requires ValidDelimiter(delimiter) && ScannerAt(scanner, offset) && isEof == (offset + |chunk| == |file|)
      modifies scanner
      ensures NeverFires(cancel) ==> ok
      ensures scanner.acc == CollectAll(old(scanner.acc), events)
      ensures scanner.acc.inOrder && SpansForward(scanner.acc.records)
      ensures DataSpans(scanner.acc.records) <= DataSpans(Whole())
      ensures ok && !isEof ==> ScannerAt(scanner, offset + |chunk|)
      ensures ok && isEof ==> scanner.acc.records == Whole()
    {
      SliceRecords(offset, |chunk|);
      ok, events := scanner.Feed(chunk, offset, isEof, cancel);
      assert scanner.acc.records <= Whole();
      DataSpansPrefix(scanner.acc.records, Whole());
    }

    /** Feeds one slice and delivers its callbacks. */
    method FeedAndDeliver(scanner: CsvRecordScanner, chunk: seq<Byte>, isEof: bool, cancel: CancelCheck)
      returns (fed: bool)
      requires scanOffset + |chunk| <= |file| && chunk == file[scanOffset..scanOffset + |chunk|] && chunk != []
      requires ValidDelimiter(delimiter) && ScannerAt(scanner, scanOffset) && isEof == (scanOffset + |chunk| == |file|)
      requires Tracks(scanner.acc)
      modifies index, scanner, `sample, `scanFailed
      ensures NeverFires(cancel) ==> fed
      ensures Tracks(scanner.acc) && DataSpans(scanner.acc.records) <= DataSpans(Whole())
      ensures index.completeFlag == old(index.completeFlag) && sample.sampling == old(sample.sampling)
      ensures old(index.contents) <= index.contents && (old(sample.hasHeader) ==> sample.hasHeader)
      ensures fed && !isEof ==> ScannerAt(scanner, scanOffset + |chunk|)
      ensures fed && isEof ==> scanner.acc.records == Whole()
    {
      hide CsvRecordIndex.Stored, CsvRecordScanner.Valid, Decode, AfterProbe, NeverFires;
      ghost var acc0 := scanner.acc;
      var events;
      fed, events := FeedSlice(scanner, scanOffset, chunk, isEof, cancel);
      Deliver(events, acc0);
    }

    /** Reads the next `toRead` bytes and feeds them to the scanner. */
    method ScanSlice(scanner: CsvRecordScanner, toRead: nat, cancel: CancelCheck, io: bool)
      returns (error: Option<SourceError>)
      requires ValidDelimiter(delimiter) && fileSize == |file| && Scanned(scanner) && scanOffset < |file|
      requires !index.failed && !scanFailed && 0 < toRead <= |file| - scanOffset
      requires !sample.hasHeader ==> sample.sampling
      modifies index, scanner, `sample, `scanFailed, `scanOffset
      ensures io && NeverFires(cancel) ==> error == None
      ensures !io ==>
        error == Some(ReadFailed) && index.contents == old(index.contents) && index.failed == old(index.failed)
      ensures Scanned(scanner) && old(index.contents) <= index.contents
      ensures index.completeFlag == old(index.completeFlag) && sample.sampling == old(sample.sampling)
      ensures old(sample.hasHeader) ==> sample.hasHeader
      ensures if error == None then scanOffset == old(scanOffset) + toRead && scanFailed == index.failed
              else scanOffset == old(scanOffset) && scanFailed && error.value in {ReadFailed, Cancelled}
    {
      hide CsvRecordIndex.Stored, CsvRecordScanner.Valid, Decode, AfterProbe, NeverFires;
      var ok, chunk := ReadBytes(scanOffset, toRead, io);
      if !ok {
        scanFailed := true;
        return Some(ReadFailed);
      }
      var fed := FeedAndDeliver(scanner, chunk, scanOffset + toRead >= fileSize, cancel);
      if !fed {
        scanFailed := true;
        return Some(Cancelled);
      }
      scanOffset := scanOffset + toRead;
      TracksIsScanned(scanner);
      return None;
    }

    lemma TracksIsScanned(scanner: CsvRecordScanner)
      requires Tracks(scanner.acc) && scanOffset <= |file| && DataSpans(scanner.acc.records) <= DataSpans(Whole())
      requires if scanOffset < |file| then ScannerAt(scanner, scanOffset) else scanner.acc.records == Whole()
      ensures Scanned(scanner)
    {
    }

    /** What the scan of the next slice can deliver. */
    lemma SliceRecords(offset: nat, n: nat)
      requires ValidDelimiter(delimiter) && offset + n <= |file|
      ensures var after := Fed(AfterProbe(file[..offset], delimiter), file[offset..offset + n], offset, delimiter);
        && after == AfterProbe(file[..offset + n], delimiter)
        && (after.Running? ==> after.m.acc.records <= Whole())
        && (offset + n == |file| ==> Ended(after, delimiter).acc.records == Whole())
        && SpansForward(Whole())
    {
      FedAfterProbe(file[..offset], file[offset..offset + n], delimiter);
      assert file[..offset] + file[offset..offset + n] == file[..offset + n];
      DeliveredIsPrefix(file, offset + n, delimiter);
      EndedDecodes(file, delimiter);
      assert offset + n == |file| ==> file[..offset + n] == file;
      BytesConserved(file, delimiter);
    }

    /** Holds from a successful open on: the schema is that of the file's header record. */
    ghost predicate IsOpen()
      reads `file, `delimiter, `columnCount, `indexScanner, index`completeFlag
    {
      && Whole() != [] && columnCount == |Whole()[0].fields| && columnCount > 0
      && (indexScanner == null ==> index.completeFlag)
    }

    /** The permanent ways for indexing to stop short. */
    predicate Latched()
      reads `sourceChanged, `scanFailed, index`failed
    {
      sourceChanged || scanFailed || index.failed
    }

    /** What has failed so far: the identity of the file, the scan, the disk of the index. */
    function Failures(): (bool, bool, bool)
      reads `sourceChanged, `scanFailed, index`failed
    {
      (sourceChanged, scanFailed, index.failed)
    }

    /** What had failed still has. */
    predicate Keeps(before: (bool, bool, bool))
      reads `sourceChanged, `scanFailed, index`failed
    {
      (before.0 ==> sourceChanged) && (before.1 ==> scanFailed) && (before.2 ==> index.failed)
    }

    /** Everything a reopen drops, and a fresh index. */
    method ResetForOpen(d: Byte) returns (ok: bool)
      requires ValidDelimiter(d) && d != 0
      modifies this, index
      ensures Valid() && delimiter == d && indexScanner == null && file == [] && index.contents == []
      ensures !sourceChanged && !scanFailed && !index.failed && !index.completeFlag && scanOffset == 0
      ensures knownTotal == None
    {
      file, fileSize := [], 0;
      sourceChanged, scanFailed := false, false;
      columnCount, knownTotal, scanOffset := 0, None, 0;
      indexScanner, delimiter := null, d;
      ghost var quiet;
      ok, quiet := index.Init();
    }

    /** Opens the file whose bytes are `bytes` and indexes its first chunks: until 200 data rows
        are sampled, 2 MiB are read, or the file ends.  `quiet` says, here and below, that no call on the
        file failed and no cancellation was seen. */
    method Open(bytes: seq<Byte>, d: Byte, cancel: CancelCheck) returns (ok: bool, ghost quiet: bool)
      requires ValidDelimiter(d) && d != 0
      modifies this, index
      ensures Valid() && delimiter == d
      ensures ok ==> IsOpen() && file == bytes && !Latched()
      ensures ok && indexScanner != null ==> fresh(indexScanner)
      ensures ok ==> knownTotal.Some? == index.completeFlag
      ensures ok ==> Sampled(bytes, d)
      ensures !ok ==> indexScanner == null
      ensures quiet && NeverFires(cancel) && !index.failed ==> (ok <==> !Unreadable(bytes, d))
      ensures ok ==> !Unreadable(bytes, d)
    {
      ok := ResetForOpen(d);
      if !ok {
        return false, false;
      }
      var found: bool, statOk: bool := *, *;
      if !found {
        return false, false;
      }
      ok, quiet := Load(bytes, statOk, cancel);
    }

    /** The part of the open behind the file handle. */
    method Load(bytes: seq<Byte>, statOk: bool, cancel: CancelCheck) returns (ok: bool, ghost quiet: bool)
      requires ValidDelimiter(delimiter) && delimiter != 0 && indexScanner == null
      requires index.Valid() && index.contents == []
      requires !Latched() && !index.completeFlag && scanOffset == 0 && knownTotal == None
      modifies this, index
      ensures Valid() && delimiter == old(delimiter)
      ensures ok ==> IsOpen() && file == bytes && !Latched()
      ensures ok && indexScanner != null ==> fresh(indexScanner)
      ensures ok ==> knownTotal.Some? == index.completeFlag
      ensures ok ==> Sampled(bytes, delimiter)
      ensures !ok ==> indexScanner == null
      ensures quiet && NeverFires(cancel) && !index.failed ==> (ok <==> !Unreadable(bytes, delimiter))
      ensures ok ==> !Unreadable(bytes, delimiter)
    {
      hide CsvRecordIndex.Stored, CsvRecordScanner.Valid, Decode, AfterProbe, Delivered, SampleEnds, Unreadable;
      hide Valid, Coherent, Scanned, IsOpen, NeverFires;
      file := bytes;
      fileSize := if statOk then |bytes| else 0;
      if fileSize == 0 {
        NoBytesNoRecords();
        NotScanned();
        return false, statOk;
      }
      NotScanned();
      var scanner := BeginSample();
      ok, quiet := SampleScan(scanner, cancel);
      HasSampled(scanner);
      if !index.failed && !scanFailed && SampleEnds(file, delimiter, scanOffset) {
        HeaderIffReadable(scanner);
      }
      if !ok || !sample.hasHeader || sample.columns == 0 {
        return false, quiet;
      }
      ok := Freeze(scanner);
    }

    /** How far a successful open has indexed the file: to its end, or through the records of the sample. */
    ghost predicate Sampled(bytes: seq<Byte>, d: Byte)
      reads `scanOffset, index`contents, index`completeFlag
    {
      && SampleEnds(bytes, d, scanOffset)
      && (index.completeFlag <==> scanOffset == |bytes|)
      && (scanOffset < |bytes| ==> |index.contents| + 1 == |Delivered(bytes, scanOffset, d)|)
    }

    /** Without a scanner there is little to keep. */
    lemma NotScanned()
      requires indexScanner == null && index.Valid() && index.contents == []
      requires ValidDelimiter(delimiter) && delimiter != 0 && !index.completeFlag
      ensures Valid() && IndexSound()
    {
    }

    lemma HasSampled(scanner: CsvRecordScanner)
      requires indexScanner == null && Scanned(scanner)
      requires ValidDelimiter(delimiter) && delimiter != 0 && !index.completeFlag
      ensures Valid() && index.Valid() && scanOffset <= |file|
    {
    }

    lemma NoBytesNoRecords()
      ensures Unreadable([], delimiter)
    {
    }

    /** The sample tells whether the scan has seen enough. */
    ghost predicate EnoughSeen()
      requires scanOffset <= |file|
      reads `file, `delimiter, `scanOffset, `sample
    {
      && (!sample.hasHeader ==> sample.rows == 0)
      && (Enough(file, delimiter, scanOffset) <==>
           sample.rows >= MAX_SAMPLE_ROWS || scanOffset >= MAX_SAMPLE_SCAN_BYTES)
    }

    /** What the scan has seen behind a chunk. */
    lemma SeenSoFar(scanner: CsvRecordScanner)
      requires ValidDelimiter(delimiter) && Scanned(scanner) && !index.failed && !scanFailed && scanOffset < |file|
      ensures scanner.acc.records == Delivered(file, scanOffset, delimiter)
      ensures sample.hasHeader ==> |index.contents| + 1 == |Delivered(file, scanOffset, delimiter)|
      ensures sample.sampling ==> EnoughSeen()
    {
    }

    /** The sample scan finds the header just if the file is readable, and then it has a column. */
    lemma HeaderIffReadable(scanner: CsvRecordScanner)
      requires Scanned(scanner) && !index.failed && !scanFailed && ValidDelimiter(delimiter)
      requires SampleEnds(file, delimiter, scanOffset)
      ensures sample.hasHeader ==> sample.columns > 0
      ensures sample.hasHeader <==> !Unreadable(file, delimiter)
      ensures sample.hasHeader && scanOffset < |file| ==>
        |index.contents| + 1 == |Delivered(file, scanOffset, delimiter)|
    {
      hide Unreadable, Delivered, SampleEnds, Decode, AfterProbe;
      SampleFindsHeader(file, delimiter, scanOffset);
      if scanOffset < |file| {
        SeenSoFar(scanner);
      }
      if sample.hasHeader {
        HeaderSeen(scanner);
        FirstRecordHasFields();
      }
    }

    lemma FirstRecordHasFields()
      requires Whole() != []
      ensures |Whole()[0].fields| > 0
    {
      RecordIsScan(file, |file|, BomLength(file), delimiter, 0);
    }

    method BeginSample() returns (scanner: CsvRecordScanner)
      requires ValidDelimiter(delimiter) && delimiter != 0 && IndexSound() && index.contents == []
      requires scanOffset == 0 < |file|
      modifies `sample
      ensures fresh(scanner) && Scanned(scanner) && sample.sampling
    {
      sample := Sample(true, 0, 0, false, 0);
      scanner := new CsvRecordScanner(delimiter);
      assert file[..0] == [];
    }

    /** Freezes the schema; a file that was read to its end is completely indexed. */
    method Freeze(scanner: CsvRecordScanner) returns (ok: bool)
      requires ValidDelimiter(delimiter) && delimiter != 0 && fileSize == |file| && Scanned(scanner)
      requires indexScanner == null
      requires !Latched() && !index.completeFlag && sample.hasHeader && sample.columns > 0 && knownTotal == None
      modifies index, `columnCount, `sample, `knownTotal, `indexScanner
      ensures Valid() && (!ok ==> index.failed) && index.contents == old(index.contents)
      ensures ok ==> (index.completeFlag <==> scanOffset == |file|)
      ensures ok ==> IsOpen() && !Latched() && knownTotal.Some? == index.completeFlag
      ensures indexScanner == null || (ok && indexScanner == scanner)
    {
      hide CsvRecordIndex.Stored, CsvRecordScanner.Valid, Decode, AfterProbe;
      HeaderSeen(scanner);
      columnCount := sample.columns;
      sample := sample.(sampling := false);
      if scanOffset >= fileSize {
        var progress := Complete();
        ok := progress.isComplete;
      } else {
        KeepScanner(scanner);
        ok := true;
      }
    }

    /** The scanner of the sample scan goes on in the background. */
    method KeepScanner(scanner: CsvRecordScanner)
      requires ValidDelimiter(delimiter) && delimiter != 0 && fileSize == |file| && Scanned(scanner) && sample.hasHeader
      requires scanOffset < |file| && !index.completeFlag
      modifies `indexScanner
      ensures Valid() && indexScanner == scanner
    {
      indexScanner := scanner;
    }

    /** The header seen by the scan is the header of the file. */
    lemma HeaderSeen(scanner: CsvRecordScanner)
      requires ValidDelimiter(delimiter) && Scanned(scanner) && !index.failed && !scanFailed && sample.hasHeader
      ensures Whole() != [] && sample.columns == |Whole()[0].fields|
    {
      SliceRecords(scanOffset, 0);
      if scanOffset < |file| {
        assert scanner.acc.records <= Whole();
      }
    }

    /** The initial sample scan: chunk by chunk until it has enough, or the file ends. */
    method SampleScan(scanner: CsvRecordScanner, cancel: CancelCheck) returns (ok: bool, ghost quiet: bool)
      requires ValidDelimiter(delimiter) && fileSize == |file| && scanOffset == 0 < |file| && Scanned(scanner)
      requires !index.failed && !index.completeFlag && !scanFailed && sample.sampling
      modifies index, scanner, `sample, `scanFailed, `scanOffset
      ensures Scanned(scanner) && !index.completeFlag && sample.sampling
      ensures ok ==> !index.failed && !scanFailed && SampleEnds(file, delimiter, scanOffset)
      ensures quiet && NeverFires(cancel) && !index.failed && !ok ==>
        !scanFailed && !sample.hasHeader && SampleEnds(file, delimiter, scanOffset)
    {
      SampleBegins(file, delimiter);
      hide Scanned, CsvRecordScanner.Valid, Enough, NeverFires, SampleGoesOn, SampleEnds;
      quiet := true;
      while scanOffset < fileSize
        invariant Scanned(scanner) && !index.completeFlag && sample.sampling && !index.failed && !scanFailed
        invariant scanOffset <= |file| && SampleGoesOn(file, delimiter, scanOffset)
        invariant scanOffset == |file| ==> SampleEnds(file, delimiter, scanOffset)
        decreases |file| - scanOffset
      {
        ok, quiet := SampleChunk(scanner, cancel);
        if !ok || scanFailed {
          return false, quiet;
        }
        if !sample.hasHeader && scanOffset >= MAX_HEADER_SCAN_BYTES {
          return false, quiet;
        }
        if sample.hasHeader
            && (sample.rows >= MAX_SAMPLE_ROWS || scanOffset >= fileSize || scanOffset >= MAX_SAMPLE_SCAN_BYTES) {
          break;
        }
      }
      return true, quiet;
    }

    /** One chunk of the sample scan. */
    method SampleChunk(scanner: CsvRecordScanner, cancel: CancelCheck) returns (ok: bool, ghost quiet: bool)
      requires ValidDelimiter(delimiter) && fileSize == |file| && scanOffset < |file| && Scanned(scanner)
      requires !index.failed && !index.completeFlag && !scanFailed && sample.sampling
      requires SampleGoesOn(file, delimiter, scanOffset)
      modifies index, scanner, `sample, `scanFailed, `scanOffset
      ensures Scanned(scanner) && !index.completeFlag && sample.sampling && scanFailed == (!ok || index.failed)
      ensures ok ==> old(scanOffset) < scanOffset <= |file|
      ensures quiet && NeverFires(cancel) ==> ok
      ensures ok && !scanFailed && scanOffset < |file| && !sample.hasHeader ==> sample.rows == 0
      ensures ok && !scanFailed ==>
        if scanOffset < |file| && sample.rows < MAX_SAMPLE_ROWS && scanOffset < MAX_SAMPLE_SCAN_BYTES
        then SampleGoesOn(file, delimiter, scanOffset) else SampleEnds(file, delimiter, scanOffset)
      ensures ok && scanOffset == |file| ==> SampleGoesOn(file, delimiter, scanOffset)
    {
      hide CsvRecordScanner.Valid, Enough, NeverFires, Scanned, SampleGoesOn, SampleEnds;
      NextChunk(file, delimiter, scanOffset, Min(scanOffset + CHUNK_SIZE, |file|));
      var io: bool := *;
      quiet := io;
      var toRead := Min(CHUNK_SIZE, fileSize - scanOffset);
      var error := ScanSlice(scanner, toRead, cancel, io);
      ok := error == None;
      if ok && !scanFailed && scanOffset < |file| {
        SeenSoFar(scanner);
      }
    }

    /** Whether a page can be served: all of it, what is left of it at the end, not yet, or never. */
    predicate Covers(firstOrdinal: nat, pageSize: nat)
      reads index`dataRecordCount
    {
      index.dataRecordCount >= firstOrdinal + pageSize
    }

    function Readiness(firstOrdinal: int, pageSize: int): Readiness
      reads `sourceChanged, `scanFailed, index`failed, index`dataRecordCount, index`completeFlag
    {
      if firstOrdinal < 0 || pageSize <= 0 then Failed
      else if Latched() then Failed
      else if Covers(firstOrdinal, pageSize) then Ready
      else if index.IsComplete() then
        if firstOrdinal >= index.dataRecordCount then End else Ready
      else Pending
    }

    /** What the answer says about the rows of a page: all of them are indexed or the file ends on it; the file ends
        before it; some may still come; or something is wrong with the request or has ended indexing for good. */
    lemma ReadinessTells(first: int, pageSize: int)
      requires Valid()
      ensures match Readiness(first, pageSize)
        case Ready => !Latched() && 0 <= first && pageSize > 0 &&
          (first + pageSize <= |index.contents| || (|index.contents| == Total() > first && index.completeFlag))
        case End => !Latched() && first >= Total() == |index.contents| && index.completeFlag
        case Pending => !Latched() && !index.completeFlag && first + pageSize > |index.contents|
        case Failed => first < 0 || pageSize <= 0 || Latched()
    {
    }

    /** Once reported, an error of indexing is final, except that a failed stat leaves no trace. */
    predicate Final(error: SourceError)
      reads `sourceChanged, `scanFailed, `indexScanner, index`failed
    {
      error == StatFailed || Latched() || indexScanner == null
    }

    /** The scan is not over, and nothing has ended it for good. */
    predicate CanGrow()
      reads `sourceChanged, `scanFailed, `indexScanner, index`failed, index`completeFlag
    {
      indexScanner != null && !Latched() && !index.completeFlag
    }

    /** Indexing is over, or has a scanner to go on with. */
    predicate HasScanner()
      reads `indexScanner, index`completeFlag
    {
      indexScanner != null || index.completeFlag
    }

    /** One background slice.  Unless it reports an error or completion it moves on by at least
        one byte; every error but a failed stat is latched, so the index never recovers. */
    method AdvanceIndex(byteBudget: nat, cancel: CancelCheck, stat: StatOutcome, io: bool)
      returns (progress: IndexProgress)
      requires Valid()
      modifies index, indexScanner, `sample, `scanFailed, `scanOffset, `sourceChanged, `knownTotal
      ensures Valid() && Keeps(old(Failures())) && scanOffset >= old(scanOffset) && (old(IsOpen()) ==> IsOpen())
      ensures old(index.contents) <= index.contents && progress.indexedRows == |index.contents|
      ensures old(index.completeFlag) ==> index.completeFlag && index.contents == old(index.contents)
      ensures progress.error == None ==> progress.isComplete == index.IsComplete()
      ensures progress.isComplete ==> progress.indexedRows == Total()
      ensures old(CanGrow()) && stat == StatFailure ==> progress.error == Some(StatFailed)
      ensures old(CanGrow()) && stat == StatSame && !io ==> progress.error == Some(ReadFailed) && BrokenOff()
      ensures old(CanGrow()) && stat == StatSame && !io ==> Untouched(old(index.contents), old(index.completeFlag))
      ensures progress.error == Some(StatFailed) ==>
        stat == StatFailure && scanOffset == old(scanOffset) && Latched() == old(Latched())
      ensures progress.error == Some(StatFailed) ==> Untouched(old(index.contents), old(index.completeFlag))
      ensures progress.error == None ==> !Latched() && (progress.isComplete || old(scanOffset) < scanOffset < |file|)
      ensures progress.error == None && old(CanGrow()) ==>
        scanOffset == Min(old(scanOffset) + if byteBudget < 4096 then 4096 else byteBudget, |file|)
      ensures stat != StatFailure && Undisturbed(io, cancel) && !old(scanFailed) && HasScanner() ==>
        progress.error == None
      ensures progress.error.Some? ==>
        !progress.isComplete && Final(progress.error.value) && progress.error.value != NotIndexedYet
    {
      hide Valid, IsOpen, NeverFires, Total;
      Counted();
      if !CanGrow() {
        progress := Standstill();
        return;
      }
      var changed := VerifyUnchanged(stat);
      if changed != None {
        progress := IndexProgress(index.dataRecordCount, false, changed);
      } else {
        progress := AdvanceScan(byteBudget, cancel, io);
      }
    }

    lemma Counted()
      requires Valid()
      ensures index.dataRecordCount == |index.contents|
    {
    }

    /** The report of a slice that cannot go on: the first reason in the order of the checks. */
    method Standstill() returns (progress: IndexProgress)
      requires Valid() && !CanGrow()
      ensures progress.indexedRows == |index.contents| && progress.isComplete == (progress.error == None)
      ensures progress.error == None ==> index.IsComplete() && !Latched() && progress.indexedRows == Total()
      ensures !Latched() && HasScanner() ==> progress.error == None
      ensures progress.error.Some? ==>
        Final(progress.error.value) && progress.error.value in {SourceChanged, IndexFailed, NotOpen, ScanFailed}
    {
      progress := IndexProgress(index.dataRecordCount, false, None);
      if sourceChanged {
        progress := progress.(error := Some(SourceChanged));
      } else if index.HasFailed() {
        progress := progress.(error := Some(IndexFailed));
      } else if index.IsComplete() {
        progress := progress.(isComplete := true);
      } else if indexScanner == null {
        progress := progress.(error := Some(NotOpen));
      } else if scanFailed {
        progress := progress.(error := Some(ScanFailed));
      }
    }

    /** The slice itself, once nothing stands in its way. */
    method AdvanceScan(byteBudget: nat, cancel: CancelCheck, io: bool) returns (progress: IndexProgress)
      requires Valid() && indexScanner != null && !Latched() && !index.completeFlag
      modifies index, indexScanner, `sample, `scanFailed, `scanOffset, `knownTotal
      ensures Valid() && old(index.contents) <= index.contents && progress.indexedRows == |index.contents|
      ensures scanOffset >= old(scanOffset) && (old(IsOpen()) ==> IsOpen())
      ensures progress.isComplete ==> progress.indexedRows == Total()
      ensures progress.error == None ==> progress.isComplete || scanOffset < |file|
      ensures io && NeverFires(cancel) && !index.failed ==> progress.error == None
      ensures !io ==>
        && progress.error == Some(ReadFailed) && BrokenOff()
        && Untouched(old(index.contents), old(index.completeFlag))
      ensures progress.error == None ==>
        progress.isComplete == index.IsComplete() && scanOffset > old(scanOffset) && !Latched()
      ensures progress.error == None ==>
        scanOffset == Min(old(scanOffset) + if byteBudget < 4096 then 4096 else byteBudget, |file|)
      ensures progress.error.Some? ==>
        !progress.isComplete && progress.error != Some(StatFailed) && progress.error != Some(NotIndexedYet) && Latched()
    {
      hide Valid, Coherent, Scanned, AtEnd, Decode, NeverFires, Total, CsvRecordScanner.Valid, CsvRecordIndex.Valid;
      CanScan();
      var budget := if byteBudget < MIN_SLICE_BYTES then MIN_SLICE_BYTES else byteBudget;
      var toRead := Min(budget, fileSize - scanOffset);
      var error := ScanSlice(indexScanner, toRead, cancel, io);
      progress := IndexProgress(index.dataRecordCount, false, error);
      HasScanned();
      if error == None && scanFailed {
        progress := progress.(error := Some(IndexFailed));
      } else if error == None && scanOffset >= fileSize {
        progress := Complete();
      }
    }

    /** A valid source that can grow has bytes left to scan. */
    lemma CanScan()
      requires Valid() && CanGrow()
      ensures ValidDelimiter(delimiter) && delimiter != 0 && fileSize == |file| && Scanned(indexScanner)
      ensures scanOffset < |file| && sample.hasHeader
    {
    }

    /** Scanning keeps a source valid, and it is at its end once no byte is left. */
    lemma HasScanned()
      requires indexScanner != null && Scanned(indexScanner) && fileSize == |file| && sample.hasHeader
      requires ValidDelimiter(delimiter) && delimiter != 0 && !index.completeFlag
      ensures index.dataRecordCount == |index.contents|
      ensures if index.failed || scanFailed || scanOffset < |file| then Valid() else Coherent() && AtEnd()
    {
    }

    /** The scan has failed, and nothing else. */
    predicate BrokenOff()
      reads `sourceChanged, `scanFailed, index`failed
    {
      scanFailed && !sourceChanged && !index.failed
    }

    /** The end of the file: the index becomes final, or fails. */
    method Complete() returns (progress: IndexProgress)
      requires Coherent() && AtEnd() && !Latched() && !index.completeFlag
      modifies index, `knownTotal
      ensures Valid() && index.contents == old(index.contents) && progress.indexedRows == |index.contents|
      ensures if progress.error == None then progress.isComplete && index.IsComplete() && !Latched() && knownTotal.Some?
              else !progress.isComplete && progress.error == Some(IndexFailed) && index.failed
      ensures progress.isComplete ==> progress.indexedRows == Total()
    {
      progress := IndexProgress(index.dataRecordCount, false, None);
      var marked, _ := index.MarkComplete();
      if marked {
        knownTotal := Some(index.dataRecordCount);
        progress := progress.(isComplete := true);
      } else {
        progress := progress.(error := Some(IndexFailed));
      }
    }

    // ---- Pages -----------------------------------------------------------------------------

    /** Data record `i` of the file. */
    ghost function Row(i: nat): Record
      requires i + 1 < |Whole()|
      reads `file, `delimiter
    {
      Whole()[i + 1]
    }

    /** The number of data records of the file, known or not. */
    ghost function Total(): nat
      reads `file, `delimiter
    {
      |DataRecords(Whole())|
    }

    /** One displayed row of a page: data record `i`, cell by cell. */
    ghost predicate RowCorrect(cells: seq<seq<Byte>>, flags: seq<bool>, ordinal: int, i: nat, pageSize: int)
      reads `file, `delimiter, `columnCount
    {
      && ordinal == i < Total()
      && RowShows(cells, flags, Row(i).fields, columnCount, PerCellCap(pageSize, columnCount))
      && Row(i).start <= Row(i).end <= |file|
      && (delimiter < 0x80 && ValidUtf8(file[Row(i).start..Row(i).end]) ==>
           forall c | 0 <= c < columnCount :: ValidUtf8(cells[c]))
    }

    /** A row of a page of the open file, seen without the source. */
    lemma RowDisplays(cells: seq<seq<Byte>>, flags: seq<bool>, ordinal: int, i: nat, pageSize: int)
      requires RowCorrect(cells, flags, ordinal, i, pageSize) && Whole() != [] && columnCount == |Whole()[0].fields|
      ensures Displays(file, delimiter, i, pageSize, cells, flags)
    {
    }

    /** The rows of `page` show data records `first`, `first` + 1, ... of the whole-file decode. */
    ghost predicate PageShows(page: Page, first: int, pageSize: int)
      reads `file, `delimiter, `columnCount
    {
      && first >= 0 && |page.rows| == |page.clamped| == |page.ordinals|
      && forall k | 0 <= k < |page.rows| ::
           RowCorrect(page.rows[k], page.clamped[k], page.ordinals[k], first + k, pageSize)
    }

    /** Scanning only the bytes of a stored span gives the record the full scan found there; a
        blank record gives no record. */
    lemma SpanDecodes(i: nat)
      requires ValidDelimiter(delimiter) && i + 1 < |Whole()|
      ensures var r := Row(i);
        && 0 < r.start <= r.end <= |file|
        && Finish(Run(Init(r.start), file[r.start..r.end], delimiter)).acc.records ==
             (if r.start == r.end then [] else [r])
        && (r.start == r.end ==> r.fields == [[]])
    {
      var r := Row(i);
      RecordDecodesAlone(file, |file|, BomLength(file), delimiter, i + 1);
      DataRecordsStartAboveZero(file, delimiter, i + 1);
      WindowDecodes(file, r.start, r.end, delimiter);
    }

    /** Decodes the raw bytes of data record `i`, leaving the scanner ready for the next one. */
    method DecodeSpan(scanner: CsvRecordScanner, raw: seq<Byte>, start: nat, cap: nat, cancel: CancelCheck,
                      ghost i: nat)
      returns (ok: bool, cells: seq<seq<Byte>>, flags: seq<bool>)
      requires ValidDelimiter(delimiter) && Fresh(scanner)
      requires i + 1 < |Whole()| && start == Row(i).start <= Row(i).end <= |file| && raw == file[start..Row(i).end]
      modifies scanner
      ensures NeverFires(cancel) ==> ok
      ensures ok ==> Fresh(scanner)
      ensures ok ==> RowShows(cells, flags, Row(i).fields, columnCount, cap)
      ensures ok && delimiter < 0x80 && ValidUtf8(raw) ==> forall c | 0 <= c < columnCount :: ValidUtf8(cells[c])
    {
      hide ValidUtf8, Shows;
      SpanDecodes(i);
      RunSane(Init(start), raw, delimiter);
      EndedClean(Run(Init(start), raw, delimiter));
      var events;
      ok, events := scanner.Feed(raw, start, true, cancel);
      if !ok {
        return false, [], [];
      }
      cells, flags := DecodeRow(events, columnCount, cap);
      if delimiter < 0x80 && ValidUtf8(raw) {
        PiecesAreUtf8(raw, delimiter, events);
      }
      scanner.Reset();
    }

    /** Decodes the page that starts at data ordinal `startOrdinal`. */
    method ReadPage(startOrdinal: int, pageSize: int, cancel: CancelCheck)
      returns (result: PageResult, ghost quiet: bool)
      requires Valid()
      modifies index, `sourceChanged
      ensures quiet && NeverFires(cancel) ==> Outcome(result, startOrdinal, pageSize)
      ensures Valid() && Keeps(old(Failures()))
      ensures index.contents == old(index.contents) && index.completeFlag == old(index.completeFlag)
      ensures result.PageOk? ==> PageAnswers(result.page, startOrdinal, pageSize)
      ensures result == PageError(NotIndexedYet) ==>
        pageSize > 0 && !index.IsComplete() && startOrdinal >= |index.contents| && index.failed == old(index.failed)
      ensures result == PageError(Cancelled) ==> index.failed == old(index.failed)
      ensures startOrdinal < 0 || pageSize <= 0 ==> result == PageError(InvalidPageParameters)
    {
      hide CsvRecordIndex.Stored, CsvRecordScanner.Valid, Decode, AtEnd, AtOffset, RowCorrect;
      if startOrdinal < 0 || pageSize <= 0 {
        return PageError(InvalidPageParameters), true;
      }
      var stat: StatOutcome := *;
      var changed := VerifyUnchanged(stat);
      if changed.Some? {
        return PageError(changed.value), stat != StatFailure;
      }
      var cancelled: bool := *;
      if cancelled {
        return PageError(Cancelled), false;
      }
      var totalIndexed := index.dataRecordCount;
      if startOrdinal >= totalIndexed {
        if !index.IsComplete() {
          return PageError(NotIndexedYet), true;
        }
        return PageOk(Page([], [], [], PageToken(0, 0, startOrdinal, false), false)), true;
      }
      result, quiet := ServeIndexed(startOrdinal, Min(pageSize, totalIndexed - startOrdinal), pageSize, cancel);
    }

    /** The records of the page are indexed, or known not to exist. */
    predicate Servable(first: int, pageSize: int)
      reads index`dataRecordCount, index`completeFlag, index`failed
    {
      first >= 0 && pageSize > 0 && (first < index.dataRecordCount || index.IsComplete())
    }

    /** What a page request comes to when no system call on the file fails and nothing is cancelled. */
    predicate Outcome(result: PageResult, first: int, pageSize: int)
      reads `sourceChanged, index`dataRecordCount, index`completeFlag, index`failed
    {
      if first < 0 || pageSize <= 0 then result == PageError(InvalidPageParameters)
      else if sourceChanged then result == PageError(SourceChanged)
      else if !Servable(first, pageSize) then result == PageError(NotIndexedYet)
      else if index.failed then result == PageError(SpansUnreadable)
      else result.PageOk?
    }

    /** Nothing outside has interfered. */
    ghost predicate Undisturbed(quiet: bool, cancel: CancelCheck)
      reads `sourceChanged, index`failed
    {
      quiet && NeverFires(cancel) && !sourceChanged && !index.failed
    }

    /** Reads the spans of `count` indexed records and decodes them. */
    method ServeIndexed(first: nat, count: nat, pageSize: int, cancel: CancelCheck)
      returns (result: PageResult, ghost quiet: bool)
      requires Valid() && 0 < count && first + count <= |index.contents|
      modifies index
      ensures Valid() && (old(index.failed) ==> index.failed)
      ensures index.contents == old(index.contents) && index.completeFlag == old(index.completeFlag)
      ensures result.PageOk? ==> |result.page.rows| == count && PageShows(result.page, first, pageSize)
      ensures result.PageOk? ==> result.page.token.offset == first && result.page.token.valid
      ensures result.PageOk? ==> result.page.hasMore == (|index.contents| > first + count || !index.IsComplete())
      ensures quiet && NeverFires(cancel) ==>
        if index.failed then result == PageError(SpansUnreadable) else result.PageOk?
      ensures result.PageError? ==> result.error in {SpansUnreadable, Cancelled, ReadFailed}
      ensures result == PageError(Cancelled) ==> index.failed == old(index.failed)
    {
      hide NeverFires, CsvRecordScanner.Valid, Decode;
      var spans, _ := index.ReadSpans(first, count);
      if |spans| != count {
        return PageError(SpansUnreadable), true;
      }
      result, quiet := DecodeSpans(spans, first, pageSize, cancel);
      if result.PageOk? {
        var hasMore := index.dataRecordCount > first + |spans| || !index.IsComplete();
        result := PageOk(result.page.(hasMore := hasMore));
      }
    }

    /** What an ok page promises: exactly the records asked for, as far as they are indexed. */
    ghost predicate PageAnswers(page: Page, first: int, pageSize: int)
      reads `file, `delimiter, `columnCount, index
    {
      && first >= 0 && pageSize > 0
      && |page.rows| == (if first >= |index.contents| then 0 else Min(pageSize, |index.contents| - first))
      && PageShows(page, first, pageSize)
      && page.token.offset == first && page.token.valid == (page.rows != [])
      && page.hasMore == (|index.contents| > first + |page.rows| || !index.IsComplete())
      && (page.rows == [] ==> index.IsComplete())
    }

    method DecodeSpans(spans: seq<Span>, first: nat, pageSize: int, cancel: CancelCheck)
      returns (result: PageResult, ghost quiet: bool)
      requires Valid() && spans != [] && first + |spans| <= |index.contents|
      requires spans == index.contents[first..first + |spans|]
      ensures result.PageOk? ==> |result.page.rows| == |spans| && PageShows(result.page, first, pageSize)
      ensures result.PageOk? ==> result.page.token == PageToken(spans[0].start, spans[|spans| - 1].end, first, true)
      ensures quiet && NeverFires(cancel) ==> result.PageOk?
      ensures result.PageError? ==> result.error in {Cancelled, ReadFailed}
    {
      hide CsvRecordIndex.Stored, CsvRecordScanner.Valid, Decode, AfterProbe, NeverFires, RowCorrect;
      var rows, clamped, ordinals := [], [], [];
      quiet := true;
      var scanner := new CsvRecordScanner(delimiter);
      for k := 0 to |spans|
        invariant |rows| == |clamped| == |ordinals| == k
        invariant forall j | 0 <= j < k :: RowCorrect(rows[j], clamped[j], ordinals[j], first + j, pageSize)
        invariant fresh(scanner) && Fresh(scanner)
      {
        var cancelled: bool := *;
        if cancelled {
          return PageError(Cancelled), false;
        }
        StoredSpan(spans, first, k);
        var error, cells, flags;
        error, cells, flags, quiet := DecodeRecord(scanner, spans[k], pageSize, cancel, first + k);
        if error.Some? {
          return PageError(error.value), quiet;
        }
        rows, clamped, ordinals := rows + [cells], clamped + [flags], ordinals + [first + k];
      }
      result := PageOk(Page(rows, clamped, ordinals,
          PageToken(spans[0].start, spans[|spans| - 1].end, first, true), false));
    }

    ghost predicate Fresh(scanner: CsvRecordScanner)
      reads scanner, `delimiter
    {
      scanner.Valid() && scanner.Scanned() == Probing([]) && scanner.acc == NOTHING && scanner.delimiter == delimiter
    }

    lemma StoredAt(i: nat)
      requires IndexSound() && i < |index.contents|
      ensures i < Total() && index.contents[i] == Span(Row(i).start, Row(i).end)
    {
      assert index.contents[i] == DataSpans(Whole())[i];
    }

    lemma StoredSpan(spans: seq<Span>, first: nat, k: nat)
      requires IndexSound() && k < |spans| && first + |spans| <= |index.contents|
      requires spans == index.contents[first..first + |spans|]
      ensures first + k < Total() && spans[k] == Span(Row(first + k).start, Row(first + k).end)
    {
      StoredAt(first + k);
    }

    /** Reads and decodes one record. */
    method DecodeRecord(scanner: CsvRecordScanner, span: Span, pageSize: int, cancel: CancelCheck, ghost i: nat)
      returns (error: Option<SourceError>, cells: seq<seq<Byte>>, flags: seq<bool>, ghost quiet: bool)
      requires ValidDelimiter(delimiter) && Fresh(scanner)
      requires i < Total() && span == Span(Row(i).start, Row(i).end)
      modifies scanner
      ensures error == None ==> Fresh(scanner) && RowCorrect(cells, flags, i, i, pageSize)
      ensures quiet && NeverFires(cancel) ==> error == None
      ensures error.Some? ==> error.value in {Cancelled, ReadFailed}
    {
      SpanDecodes(i);
      var io: bool := *;
      var ok, raw := ReadBytes(span.start, span.end - span.start, io);
      quiet := io;
      if !ok {
        return Some(ReadFailed), [], [], quiet;
      }
      ok, cells, flags := DecodeSpan(scanner, raw, span.start, PerCellCap(pageSize, columnCount), cancel, i);
      error := if ok then None else Some(Cancelled);
    }

    // ---- Navigation ------------------------------------------------------------------------

    method First(pageSize: int, cancel: CancelCheck) returns (result: PageResult, ghost quiet: bool)
      requires Valid()
      modifies index, `sourceChanged
      ensures quiet && NeverFires(cancel) ==> Outcome(result, 0, pageSize)
      ensures Valid() && Keeps(old(Failures())) && Untouched(old(index.contents), old(index.completeFlag))
      ensures result.PageOk? ==> PageAnswers(result.page, 0, pageSize)
      ensures result == PageError(NotIndexedYet) ==>
        pageSize > 0 && !index.IsComplete() && |index.contents| == 0 && index.failed == old(index.failed)
      ensures result == PageError(Cancelled) ==> index.failed == old(index.failed)
    {
      result, quiet := ReadPage(0, pageSize, cancel);
    }

    method Next(token: PageToken, pageSize: int, cancel: CancelCheck) returns (result: PageResult, ghost quiet: bool)
      requires Valid()
      modifies index, `sourceChanged
      ensures quiet && NeverFires(cancel) && token.valid && token.offset <= INT64_MAX - pageSize ==>
        Outcome(result, token.offset + pageSize, pageSize)
      ensures Valid() && Keeps(old(Failures())) && Untouched(old(index.contents), old(index.completeFlag))
      ensures result.PageOk? ==> token.valid && PageAnswers(result.page, token.offset + pageSize, pageSize)
      ensures result == PageError(NotIndexedYet) ==>
        && pageSize > 0 && !index.IsComplete() && token.offset + pageSize >= |index.contents|
        && index.failed == old(index.failed)
      ensures result == PageError(Cancelled) ==> index.failed == old(index.failed)
      ensures !token.valid || token.offset > INT64_MAX - pageSize ==> result == PageError(InvalidToken)
      ensures token.valid && token.offset <= INT64_MAX - pageSize && pageSize <= 0 ==>
        result == PageError(InvalidPageParameters)
    {
      if !token.valid || token.offset > INT64_MAX - pageSize {
        return PageError(InvalidToken), true;
      }
      result, quiet := ReadPage(token.offset + pageSize, pageSize, cancel);
    }

    method Prev(token: PageToken, pageSize: int, cancel: CancelCheck) returns (result: PageResult, ghost quiet: bool)
      requires Valid()
      modifies index, `sourceChanged
      ensures quiet && NeverFires(cancel) && token.valid ==>
        Outcome(result, PrevTarget(token.offset, pageSize), pageSize)
      ensures Valid() && Keeps(old(Failures())) && Untouched(old(index.contents), old(index.completeFlag))
      ensures result.PageOk? ==> token.valid && PageAnswers(result.page, PrevTarget(token.offset, pageSize), pageSize)
      ensures result == PageError(NotIndexedYet) ==>
        && pageSize > 0 && !index.IsComplete() && PrevTarget(token.offset, pageSize) >= |index.contents|
        && index.failed == old(index.failed)
      ensures result == PageError(Cancelled) ==> index.failed == old(index.failed)
      ensures !token.valid ==> result == PageError(InvalidToken)
    {
      if !token.valid {
        return PageError(InvalidToken), true;
      }
      result, quiet := ReadPage(PrevTarget(token.offset, pageSize), pageSize, cancel);
    }

    method Last(pageSize: int, total: Option<int>, cancel: CancelCheck) returns (result: PageResult, ghost quiet: bool)
      requires Valid()
      modifies index, `sourceChanged
      ensures total == None || total.value < 0 || pageSize <= 0 ==> result == PageError(TotalRequired)
      ensures quiet && NeverFires(cancel) && total.Some? && total.value >= 0 && pageSize > 0 ==>
        Outcome(result, LastTarget(total.value, pageSize), pageSize)
      ensures Valid() && Keeps(old(Failures())) && Untouched(old(index.contents), old(index.completeFlag))
      ensures result.PageOk? ==>
        total.Some? && total.value >= 0 && PageAnswers(result.page, LastTarget(total.value, pageSize), pageSize)
      ensures result == PageError(NotIndexedYet) ==>
        && !index.IsComplete() && pageSize > 0 && total.Some?
        && LastTarget(total.value, pageSize) >= |index.contents| && index.failed == old(index.failed)
      ensures result == PageError(Cancelled) ==> index.failed == old(index.failed)
    {
      if total == None || total.value < 0 || pageSize <= 0 {
        return PageError(TotalRequired), true;
      }
      if total.value == 0 {
        result, quiet := First(pageSize, cancel);
        return;
      }
      result, quiet := ReadPage(LastTarget(total.value, pageSize), pageSize, cancel);
    }

    /** A page read never adds to the index. */
    ghost predicate Untouched(contents: seq<Span>, complete: bool)
      reads index`contents, index`completeFlag
    {
      index.contents == contents && index.completeFlag == complete
    }

    // ---- Refetch ---------------------------------------------------------------------------

    /** The full values of selected cells of one row; an empty selection means every column.  An
        ok result is complete and within the copy budget. */
    method Refetch(ordinal: Option<int>, selectedColumns: seq<int>, cancel: CancelCheck)
      returns (result: RefetchResult, ghost quiet: bool)
      requires Valid()
      modifies index, `sourceChanged
      ensures Undisturbed(quiet, cancel) ==>
        if ordinal.Some? && 0 <= ordinal.value < |index.contents| then
          result.RefetchOk? || result.error == CopyBudgetExceeded
        else result == RefetchError(if ordinal == None then MissingOrdinal else OrdinalOutOfRange)
      ensures old(IsOpen()) ==> IsOpen()
      ensures Valid() && Keeps(old(Failures())) && Untouched(old(index.contents), old(index.completeFlag))
      ensures result.RefetchOk? ==> ordinal.Some? && 0 <= ordinal.value < |index.contents| && ordinal.value < Total()
      ensures result.RefetchOk? ==> result.columns == TargetColumns(selectedColumns, columnCount)
      ensures result.RefetchOk? ==>
        result.values == ValuesAt(Row(ordinal.value).fields, TargetColumns(selectedColumns, columnCount))
      ensures result.RefetchOk? ==> RowBytes(result.values) <= COPY_BUDGET
      ensures result == RefetchError(CopyBudgetExceeded) ==>
        ordinal.Some? && 0 <= ordinal.value < Total() && Oversized(ordinal.value, selectedColumns)
    {
      hide CsvRecordIndex.Stored, CsvRecordScanner.Valid, Decode, AtEnd, AtOffset, RowBytes, TargetColumns;
      if ordinal == None {
        return RefetchError(MissingOrdinal), true;
      }
      var stat: StatOutcome := *;
      var changed := VerifyUnchanged(stat);
      if changed.Some? {
        return RefetchError(changed.value), stat != StatFailure;
      }
      var cancelled: bool := *;
      if cancelled {
        return RefetchError(Cancelled), false;
      }
      var span, _ := index.ReadSpan(ordinal.value);
      if span == None {
        return RefetchError(OrdinalOutOfRange), true;
      }
      StoredAt(ordinal.value);
      result, quiet := RefetchSpan(span.value, selectedColumns, cancel, ordinal.value);
    }

    /** The selected values of data record `i` do not fit the copy budget. */
    ghost predicate Oversized(i: nat, selectedColumns: seq<int>)
      requires i + 1 < |Whole()|
      reads `file, `delimiter, `columnCount
    {
      RowBytes(ValuesAt(Row(i).fields, TargetColumns(selectedColumns, columnCount))) > COPY_BUDGET
    }

    lemma OversizedIff(i: nat, selectedColumns: seq<int>, selected: seq<bool>)
      requires ValidDelimiter(delimiter) && i + 1 < |Whole()|
      requires |selected| == columnCount
      requires forall c | 0 <= c < columnCount :: selected[c] == (c in TargetColumns(selectedColumns, columnCount))
      ensures Oversized(i, selectedColumns) <==>
        RowBytes(Selection(SliceFields(Alone(i).records), selected)) > COPY_BUDGET
    {
      var targets := TargetColumns(selectedColumns, columnCount);
      SpanDecodes(i);
      TargetsDistinct(selectedColumns, columnCount);
      RefetchedFields(i, Alone(i).records, selected, targets);
      ValuesWeigh(Row(i).fields, targets, columnCount);
    }

    method RefetchSpan(span: Span, selectedColumns: seq<int>, cancel: CancelCheck, ghost i: nat)
      returns (result: RefetchResult, ghost quiet: bool)
      requires ValidDelimiter(delimiter) && delimiter != 0 && i < Total() && span == Span(Row(i).start, Row(i).end)
      ensures result.RefetchOk? ==> result.columns == TargetColumns(selectedColumns, columnCount)
      ensures result.RefetchOk? ==>
        result.values == ValuesAt(Row(i).fields, TargetColumns(selectedColumns, columnCount))
      ensures result.RefetchOk? ==> RowBytes(result.values) <= COPY_BUDGET
      ensures result == RefetchError(CopyBudgetExceeded) ==> Oversized(i, selectedColumns)
      ensures quiet && NeverFires(cancel) ==> result.RefetchOk? || result.error == CopyBudgetExceeded
    {
      SpanDecodes(i);
      var io: bool := *;
      var ok, raw := ReadBytes(span.start, span.end - span.start, io);
      quiet := io;
      if !ok {
        return RefetchError(ReadFailed), quiet;
      }
      var targetCols, selected := ResolveTargetColumns(selectedColumns, columnCount);
      var events;
      ok, events := Rescan(raw, span.start,
          (k: nat, ev: seq<Event>) => BytesDelivered(ev, selected) > COPY_BUDGET || cancel(k, ev), i);
      TargetsDistinct(selectedColumns, columnCount);
      OversizedIff(i, selectedColumns, selected);
      if !ok {
        DeliveredWithin(events, Alone(i), selected);
        var tooMuch := BytesDelivered(events, selected) > COPY_BUDGET;
        return RefetchError(if tooMuch then CopyBudgetExceeded else Cancelled), quiet;
      }
      var exceeded, allValues := CollectValues(events, selected);
      if exceeded {
        return RefetchError(CopyBudgetExceeded), quiet;
      }
      RefetchedFields(i, CollectAll(NOTHING, events).records, selected, targetCols);
      var values := PickValues(allValues, targetCols, Row(i).fields);
      result := RefetchOk(targetCols, values);
    }

    /** What a scan of data record `i` alone collects. */
    ghost function Alone(i: nat): Collected
      requires i + 1 < |Whole()|
      reads `file, `delimiter
    {
      Collected([], [], if Row(i).start == Row(i).end then [] else [Row(i)], true)
    }

    /** A scan of the raw bytes of data record `i` alone. */
    method Rescan(raw: seq<Byte>, start: nat, cancel: CancelCheck, ghost i: nat) returns (ok: bool, events: seq<Event>)
      requires ValidDelimiter(delimiter) && delimiter != 0
      requires i + 1 < |Whole()| && start == Row(i).start <= Row(i).end <= |file| && raw == file[start..Row(i).end]
      ensures !ok ==> exists k: nat :: cancel(k, events)
      ensures CollectAll(NOTHING, events).inOrder
      ensures if ok then CollectAll(NOTHING, events) == Alone(i) else OnTheWay(CollectAll(NOTHING, events), Alone(i))
    {
      SpanDecodes(i);
      RunSane(Init(start), raw, delimiter);
      EndedClean(Run(Init(start), raw, delimiter));
      var scanner := new CsvRecordScanner(delimiter);
      ok, events := scanner.Feed(raw, start, true, cancel);
    }

    method PickValues(allValues: seq<seq<Byte>>, targets: seq<int>, ghost fields: seq<seq<Byte>>)
      returns (values: seq<seq<Byte>>)
      requires Distinct(targets) && InRange(targets, columnCount)
      requires allValues == Selection(fields, Chosen(targets, columnCount)) && RowBytes(allValues) <= COPY_BUDGET
      ensures values == ValuesAt(fields, targets) && RowBytes(values) <= COPY_BUDGET
    {
      ValuesWeigh(fields, targets, columnCount);
      hide RowBytes, Distinct, Selection, Chosen, FieldAt, ValuesAt;
      values := [];
      for j := 0 to |targets|
        invariant values == ValuesAt(fields, targets[..j])
      {
        ValuesStep(fields, targets, columnCount, j);
        values := values + [allValues[targets[j]]];
      }
      assert targets[..|targets|] == targets;
    }

    /** The selection read from a slice is the selection of the record. */
    lemma RefetchedFields(i: nat, rs: seq<Record>, selected: seq<bool>, targets: seq<int>)
      requires i + 1 < |Whole()| && |selected| == columnCount && InRange(targets, columnCount)
      requires rs == (if Row(i).start == Row(i).end then [] else [Row(i)])
      requires Row(i).start == Row(i).end ==> Row(i).fields == [[]]
      requires forall c | 0 <= c < columnCount :: selected[c] == (c in targets)
      ensures Selection(SliceFields(rs), selected) == Selection(Row(i).fields, Chosen(targets, columnCount))
    {
    }
  }

  /** The cells and flags show data record `i` of a file at a page size: each cell whole, or cut to the cap
      and flagged, and valid UTF-8 if the record is. */
  ghost predicate Displays(file: seq<Byte>, delimiter: Byte, i: nat, pageSize: int, cells: seq<seq<Byte>>,
                           flags: seq<bool>)
  {
    var rs := Decode(file, delimiter);
    && i + 1 < |rs| && rs[i + 1].start <= rs[i + 1].end <= |file|
    && RowShows(cells, flags, rs[i + 1].fields, |rs[0].fields|, PerCellCap(pageSize, |rs[0].fields|))
    && (delimiter < 0x80 && ValidUtf8(file[rs[i + 1].start..rs[i + 1].end]) ==> forall c <- cells :: ValidUtf8(c))
  }

  /** The fragments of a single chunk of valid UTF-8 are valid UTF-8: they are cut only next to
      ASCII bytes. */
  lemma PiecesAreUtf8(raw: seq<Byte>, d: Byte, events: seq<Event>)
    requires d < 0x80 && ValidUtf8(raw) && AllPieces(raw, d, events)
    ensures TextIsUtf8(events)
  {
    forall e | e in events && e.Fragment? ensures ValidUtf8(e.bytes) {
      if e.bytes == [QUOTE] {
        assert CharLength([QUOTE]) == 1;
      } else if e.bytes != [] {
        var i, j :| 0 <= i <= j <= |raw| && Stretch(raw, d, i, j) && e.bytes == raw[i..j];
        ValidUtf8Between(raw, i, j);
      }
    }
  }
}
