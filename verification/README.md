# Paged table viewer: verified model

The program shows CSV and SQLite tables page by page.  A worker thread opens the source, indexes a
CSV file in slices while pages are already being read, sorts a SQLite table into an order table, and
answers page requests; the UI thread may change its mind at any time and recognises outdated answers
by two counters.  This project models that machinery and proves what it is for:

- **Decode.**  `CsvGrammar` says what a CSV file means as a recursive decode of its bytes (section 2
  of RFC 4180 with the program's leniencies).  `CsvMachine` is the same one byte at a time, and the
  class in `CsvRecordScanner` is the chunked, span-based scanner.  All three agree for every
  chunking, every byte is accounted for, and encoding followed by scanning is the identity.
- **Index and pages.**  `CsvRecordIndex` is the layered span index over a disk that may fail at any
  call.  `CsvFileSource` indexes slice by slice and decodes a page by re-scanning stored spans; at
  every point of indexing its pages agree with the one-shot decode and, through `CsvAgreement`, with
  `CsvParser` and with its own refetch.  `Utf8`, `PageRow` and `CsvRefetch` hold the cell cuts and
  budgets, and `UnicodeText` says what they mean for Unicode.
- **Worker.**  `SourceWorker` answers page requests at once or parks them until index slices wake
  them, while the UI moves the counters in between; it also refetches full rows for a copy.
  `StoppedIndexing` follows requests behind a slice or an index disk that failed.
- **SQLite paging.**  `SqlitePaging` gives SQL queries their meaning on sequences and shows that
  keyset, order-table and offset paging are one slice specification; `SqliteTableSource` is the
  source with its read loop and order-table swap.
- **Viewer.**  `ViewerState` is what each UI handler does, `DataTableViewer` the object with those
  handlers, `PagerState` the pager.  `ViewerProtocol` puts viewer, worker and both queues together
  as a transition system and proves its invariant over every run.  `ViewerProgress` is about what is
  achieved in such runs: opening, turning pages, sorting, and the ways back.  `LostRowid` is about the runs in
  which a reopen of a table no longer finds its row id.
- **Sessions.**  `ViewerDesk` runs the viewer object with the system beside it, one protocol step for
  every handler.  `SqliteSession` adds the source object of a table and `CsvSession` the worker object
  of a file, every turn of which is a step or a few steps of the protocol (`ViewerSources` has the
  replies).  So the theorems about all runs become theorems about the objects: `Browse` in either
  session.
- **Copy.**  `CopyText` and `TableRenderer` build and write the copied text, and `CopyReading` reads it back.

Conventions.  A call into the operating system or the SQL engine, and every poll of a cancellation,
may go either way.  A ghost result `quiet` says that none of them did anything but succeed, so that
contracts can say when an operation must succeed and not only what its success means; the stat and the
read of an index slice are arguments instead.  The UI thread
acting in the middle of a job is a call that raises the counters by any amount.  Callbacks are events
that are returned by a feed and delivered behind it.

In `CsvSession` a call of the worker has already moved the counters by some amount when the acts of the
UI thread are replayed on the viewer.  Acts that do not bring the viewer to those counters describe no
run of the program; the session says so and stops.  Every run of the program has acts that do.

Six places where the code does not quite do what its comments suggest, each with its exact
condition and an input or a run:

- A failed stat is reported but not latched (`src/parsers/csv_file_source.cpp:229-232` and `250-253`).
  It also queues no further slice, so a later request that the index does not cover parks for good:
  `StoppedIndexing.AskAfterFailedStat` runs into it, `OpenThenFailStat` reaches it from every open that
  leaves bytes to be indexed, `LettersWait` with a file of 150,000 lines, and `Drain` shows that a
  current request is left parked exactly if this had happened before.
- A request that is not parked is also answered after indexing has failed for good.  It may then get
  "not indexed yet", which nothing will change, or the indexed part of a page.  The contracts of the
  four page slots say when, for every latched failure: unless the file is known to have changed, the
  answer is "not indexed yet" exactly if the index ends at or before the target and is incomplete or has
  failed, an index whose disk has failed cannot be read before that, and any other page falls short
  exactly if the index ends inside it.  `OpenThenFailScan` reaches it from every open that leaves bytes to
  be indexed, and `LettersCutShort` has a file where both happen.  Requests answered from the parking
  place are always exact.
- A SQLite open goes on when the probes for the row id fail (`src/parsers/sqlite_table_source.cpp:372-390`).
  In a reopen that has no sort to restore the viewer then keeps its row-id token, which the source reads as
  an offset.  What is displayed is right in every other run (`ViewerProtocol.DisplayAgrees`); in these,
  pages that arrive are right exactly if their offset is the one of the page asked for
  (`LostRowid.AdriftShowsIff`), and `LossMisleads` is a run in which one is not.
- The parser reports truncation when it holds exactly 100,000 rows, also if there are no more
  (`src/parsers/csv_parser.cpp:73-75`): `ParseWritten` has the condition and `ParseAtTheLimit` the file.
- A cut may leave up to three bytes of room in a cell, and the next fragment of the same field fills it
  (`src/parsers/csv_file_source.cpp:724-735`).  The cell is then no longer the beginning of the value:
  `PageRow.RefillMisplaces` has the condition and `RefillExample` a field.  It agrees with the value up to
  the last three bytes below the cap (`FlaggedCell`), and it is always flagged.
- A Markdown copy escapes bars and not backslashes (`src/ui/table_renderer.cpp:417` and `441`), so a text that
  ends in a backslash joins the next cell: `CopyReading.MarkdownReadsBack` has the condition and
  `BackslashMergesCells` a row.

## Model

| member | source | states |
|---|---|---|
| CsvGrammar.BytesConserved | src/parsers/csv_record_scanner.cpp:281-341 | The file is exactly the bytes EF BB BF, if it begins with them, followed by alternating record spans and terminators (LF, CR or CRLF, missing only after a last unterminated record); spans are ordered with end_i < start_{i+1} |
| CsvGrammar.MarkIsSkipped | src/parsers/csv_record_scanner.cpp:127-165 | A file that begins with EF BB BF decodes as the bytes behind it, with every offset 3 higher; any other file decodes from its first byte |
| CsvGrammar.TerminatorsBetween | src/parsers/csv_record_scanner.cpp:281-321 | Between a record and the next stands LF, CR or CRLF, where a CR is never parted from its LF; nothing stands there only at the end of the file |
| CsvGrammar.RecordEndsAtLineEnd | src/parsers/csv_record_scanner.cpp:281-321 | A record never ends on a delimiter: the byte behind it is a line end or the end of the file |
| CsvGrammar.RecordIsScan | src/parsers/csv_record_scanner.cpp:254-327 | Record k of a window starts inside it and its end and fields are those found by scanning from its own start |
| CsvGrammar.RecordDecodesAlone | src/parsers/csv_file_source.cpp:748-779 | Decoding only the bytes of a stored span gives that record back; a blank record, and only that, gives no record (and then its only field is empty) |
| CsvGrammar.DataRecordsStartAboveZero | src/parsers/csv_record_scanner.cpp:122-127 | Every data record starts above offset 0, so re-scanning one never probes for a byte order mark |
| CsvMachine.RunDecodes | src/parsers/csv_record_scanner.cpp:212-341 | From any reachable scanner state, running to the end of a window delivers exactly the records still to come in the recursive decode |
| CsvMachine.WindowDecodes | src/parsers/csv_record_scanner.cpp:114-344 | A fresh scan of any window is the recursive decode of that window |
| CsvMachine.ChunkInvariance | src/parsers/csv_record_scanner.cpp:114-344 | Any split of a byte stream into chunks, empty ones and splits inside a byte order mark, a CRLF or a doubled quote included, yields the records, offsets and field values of the one-shot decode |
| CsvMachine.EndedDecodes | src/parsers/csv_record_scanner.cpp:334-341 | Ending a scan after the whole file gives the whole decode |
| CsvMachine.EndedClean | src/parsers/csv_record_scanner.cpp:334-341 | The end of a scan leaves no field or record open and every callback came in order |
| CsvMachine.DeliveredIsPrefix | src/parsers/csv_record_scanner.cpp:212-332 | Records delivered before the end of the file are a prefix of the whole decode |
| CsvMachine.DeliveredGrows | src/parsers/csv_record_scanner.cpp:212-332 | Scanning on takes back no record that has been delivered |
| CsvMachine.RunFromGoesOn | src/parsers/csv_record_scanner.cpp:212-341 | From any reachable state, what has been collected is the beginning of what the rest of the input collects: records, fields and the open field alike |
| CsvEncode.RoundTrip | src/parsers/csv_record_scanner.cpp:127-341 | Section 2 of RFC 4180: any table with 1 to 256 byte-string fields per record, written (all fields quoted, quotes doubled, CRLF) with a byte order mark or without one, survives scanning in any chunking |
| CsvEncode.WrittenDecodes | src/parsers/csv_record_scanner.cpp:127-341 | The one-shot decode of a written table is the table, and its first record starts at 3 behind a byte order mark and at 0 without one |
| CsvRecordScanner.CsvRecordScanner.Reset | src/parsers/csv_record_scanner.cpp:71-85 | Reset makes the scanner fresh, whatever state it was in |
| CsvRecordScanner.CsvRecordScanner.EmitFragment | src/parsers/csv_record_scanner.cpp:87-94 | The callbacks made add up to the text of the field, beyond 256 columns to nothing, and empty fragments are only sent as field ends |
| CsvRecordScanner.CsvRecordScanner.FlushField | src/parsers/csv_record_scanner.cpp:96-101 | Completes the current field with an empty end fragment |
| CsvRecordScanner.CsvRecordScanner.FinishRecord | src/parsers/csv_record_scanner.cpp:103-112 | The record collected so far is closed with its start and end offset and the next ordinal is due |
| CsvRecordScanner.CsvRecordScanner.ResolveCr | src/parsers/csv_record_scanner.cpp:179-191 | A CR left open by the previous chunk is resolved as the byte-by-byte machine would |
| CsvRecordScanner.CsvRecordScanner.ResolveQuote | src/parsers/csv_record_scanner.cpp:193-210 | A quote left open by the previous chunk is an escaped quote or a closing one, as the byte-by-byte machine decides |
| CsvRecordScanner.CsvRecordScanner.EscapedQuote | src/parsers/csv_record_scanner.cpp:231-236 | A doubled quote inside quotes is one quote of text |
| CsvRecordScanner.CsvRecordScanner.TrailingQuote | src/parsers/csv_record_scanner.cpp:237-242 | A quote that ends a chunk waits for the next chunk |
| CsvRecordScanner.CsvRecordScanner.ClosingQuote | src/parsers/csv_record_scanner.cpp:243-249 | Any other quote inside quotes closes them |
| CsvRecordScanner.CsvRecordScanner.OpeningQuote | src/parsers/csv_record_scanner.cpp:261-269 | A quote outside quotes opens them, even in the middle of a field |
| CsvRecordScanner.CsvRecordScanner.FieldEnd | src/parsers/csv_record_scanner.cpp:270-280 | A delimiter outside quotes completes the field |
| CsvRecordScanner.CsvRecordScanner.LineEnd | src/parsers/csv_record_scanner.cpp:281-321 | A line end completes field and record and the next record starts behind LF, CR or CRLF |
| CsvRecordScanner.CsvRecordScanner.TrailingCr | src/parsers/csv_record_scanner.cpp:298-303 | A CR that ends a chunk completes the record and waits for its LF |
| CsvRecordScanner.CsvRecordScanner.FinishInput | src/parsers/csv_record_scanner.cpp:334-341 | At the end of input a record is completed exactly if it has seen a byte; an unclosed quote runs to the end |
| CsvRecordScanner.CsvRecordScanner.ScanLoop | src/parsers/csv_record_scanner.cpp:212-332 | The span-based loop over a chunk ends in the state of the byte-by-byte machine, with callbacks that add up to what it collected |
| CsvRecordScanner.CsvRecordScanner.Feed | src/parsers/csv_record_scanner.cpp:114-344 | One feed moves the collected records, fields and offsets exactly as the machine does; a refused feed was cancelled by the check and its callbacks are the beginning of those of the whole feed; outside byte order mark probing every fragment is a stretch of the chunk cut next to special bytes |
| CsvRecordScanner.ScanChunks | src/parsers/csv_record_scanner.cpp:114-344 | The scanner object, fed a file in any chunks, collects exactly its one-shot decode |
| CsvRecordIndex.CsvRecordIndex.Init | src/parsers/csv_record_index.cpp:311-331 | A fresh, empty, sound index |
| CsvRecordIndex.CsvRecordIndex.FlushBuffer | src/parsers/csv_record_index.cpp:195-242 | A flush moves the whole write buffer behind the data on disk or reports failure |
| CsvRecordIndex.CsvRecordIndex.AppendSpan | src/parsers/csv_record_index.cpp:333-366 | Appends one span to the logical sequence, refuses a backward span or a failed index, and fails only when a disk call did |
| CsvRecordIndex.CsvRecordIndex.ReadSpan | src/parsers/csv_record_index.cpp:368-440 | Returns the i-th appended span for every i below the count, whichever of RAM cache, block cache, write buffer or disk holds it, unless a disk call failed |
| CsvRecordIndex.CsvRecordIndex.ReadSpans | src/parsers/csv_record_index.cpp:442-455 | Consecutive spans; fewer than asked for only at the end or after a failure |
| CsvRecordIndex.CsvRecordIndex.Flush | src/parsers/csv_record_index.cpp:513-527 | Succeeds exactly when nothing has failed |
| CsvRecordIndex.CsvRecordIndex.MarkComplete | src/parsers/csv_record_index.cpp:475-489 | The completion flag is set exactly on success; a failed index never reports completion |
| CsvRecordIndex.RunOperations | src/parsers/csv_record_index.cpp:311-527 | After any sequence of appends, reads, flushes and completions without a disk failure every read got what a plain sequence would give; after a failure no read is answered wrongly and the index is never complete |
| Utf8.Utf8SafeLength | src/parsers/csv_file_source.cpp:40-49 | The cut is the longest one within the limit that does not stand before a continuation byte |
| Utf8.SafeCut | src/parsers/csv_file_source.cpp:40-49 | Section 4 of RFC 3629: a cut of valid UTF-8 is valid UTF-8 and gives up at most 3 bytes |
| Utf8.NoLongTail | src/parsers/csv_file_source.cpp:46-47 | No four continuation bytes stand in a row in valid UTF-8, so the step back is bounded |
| Utf8.ValidUtf8Between | src/parsers/csv_file_source.cpp:724-744 | Text of valid UTF-8 between two ASCII bytes is valid UTF-8 |
| UnicodeText.ValidIff | src/parsers/csv_file_source.cpp:40-49 | Sections 3 and 4 of RFC 3629: the valid texts are exactly the encodings of sequences of Unicode scalar values |
| UnicodeText.CutKeepsCharacters | src/parsers/csv_file_source.cpp:40-49 | The cut of a text keeps as many whole characters as fit |
| UnicodeText.SizeIsEncoded | src/ui/table_renderer.cpp:28-46 | The size a copy is measured by is the length of its text in UTF-8, a lone surrogate counting as the replacement character |
| PageRow.CapIsShare | src/parsers/csv_file_source.cpp:641-647 | Between its bounds of 16 and 4096 bytes the cap is the largest whole share of 32 MiB per cell of a full page |
| PageRow.AppendCell | src/parsers/csv_file_source.cpp:724-735 | A cell fits the cap, is flagged exactly when the full value does not fit, is the whole value otherwise, starts with the longest cut of the value if flagged, and stays valid UTF-8; once flagged it stays the beginning of the value exactly if nothing more is filled in |
| PageRow.FlaggedCell | src/parsers/csv_file_source.cpp:724-735 | A flagged cell of a valid UTF-8 value lacks at most 3 bytes of the cap, and its first cap - 3 bytes are those of the value |
| PageRow.RefillMisplaces | src/parsers/csv_file_source.cpp:724-735 | Room that a cut has left in a flagged cell is filled from the next fragment, and the cell is still the beginning of the value exactly if none of it fits |
| PageRow.RefillExample | src/parsers/csv_file_source.cpp:724-735 | At every cap: letters up to one byte below it, a two-byte character that is cut, and a quote that is filled in behind the gap |
| PageRow.DecodeRow | src/parsers/csv_file_source.cpp:718-787 | A displayed row shows the first fields of the re-scanned record, cell by cell whole or cut at the cap, padded with empty cells |
| PageRow.PadRow | src/parsers/csv_file_source.cpp:775-779 | Padding fills a short row to the header width with unflagged empty cells and changes no other cell |
| PageRow.RowBytesIsLength | src/parsers/csv_file_source.cpp:922-937 | What the budgets count for a row is the length of its cells |
| PageRow.PageFitsBudget | src/parsers/csv_file_source.cpp:641-647 | For every page size from 100 to 3000 and at most 256 columns the decoded cells of a page take at most 32 MiB |
| CsvRefetch.ResolveTargetColumns | src/parsers/csv_file_source.cpp:51-74 | The distinct valid columns, all of them for an empty request, with the matching selection flags |
| CsvRefetch.MentionedInOrder | src/parsers/csv_file_source.cpp:51-74 | They come in the order in which they were first asked for |
| CsvRefetch.EveryColumn | src/parsers/csv_file_source.cpp:51-74 | An empty request asks for all columns from left to right |
| CsvRefetch.CollectValues | src/parsers/csv_file_source.cpp:922-937 | The budget is exceeded exactly when the full values of the selected cells are larger than it; otherwise the values are complete |
| CsvRefetch.ValuesWeigh | src/parsers/csv_file_source.cpp:922-958 | The values handed out weigh exactly what the budget counted |
| CsvRefetch.DeliveredWithin | src/parsers/csv_file_source.cpp:922-937 | The bytes counted before a scan is cut short never exceed the full values of the selected cells |
| CsvFileSource.CsvFileSource.VerifyUnchanged | src/parsers/csv_file_source.cpp:217-264 | Decided by the stat alone: a change is latched, and a failed stat is reported and leaves no trace |
| CsvFileSource.CsvFileSource.OnRecord | src/parsers/csv_file_source.cpp:409-452 | The header fixes the column count; every later record appends its span, and a failed append stops the scan |
| CsvFileSource.CsvFileSource.Deliver | src/parsers/csv_file_source.cpp:382-452 | The callbacks of a feed keep the index at exactly the spans of the data records collected |
| CsvFileSource.CsvFileSource.SliceRecords | src/parsers/csv_file_source.cpp:454-468 | What is indexed after any prefix of the file is a prefix of the whole decode |
| CsvFileSource.CsvFileSource.ScanSlice | src/parsers/csv_file_source.cpp:454-475 | A slice read and fed whole moves the offset by its length and leaves scanner, index and sample at that offset; it fails only on a failed read or a cancellation, and a failed read always fails it and leaves the index as it was |
| CsvFileSource.CsvFileSource.Open | src/parsers/csv_file_source.cpp:301-527 | A successful open has the schema of the first record and has indexed the records of the sample: up to the first whole 256 KiB chunk behind which 200 data rows or 2 MiB have been seen, or the whole file, and exactly then it is complete and its total known; an undisturbed open succeeds exactly if the file has a record and, beyond 2 MiB, one that is complete within the first 2 MiB; no other file is ever opened |
| CsvFileSource.CsvFileSource.SampleScan | src/parsers/csv_file_source.cpp:454-495 | The sample scan ends behind the first whole chunk that has brought 200 data rows or 2 MiB, or at the end of the file; undisturbed it is refused only there, for want of a header |
| CsvFileSource.SampleFindsHeader | src/parsers/csv_file_source.cpp:454-495 | There is exactly one such end, at most 2 MiB in, and a header has been found there exactly if the file is readable |
| CsvFileSource.CsvFileSource.Freeze | src/parsers/csv_file_source.cpp:497-527 | A file read to its end is complete; otherwise the scanner goes on from where the sample scan stopped |
| CsvFileSource.CsvFileSource.ReadinessTells | src/parsers/csv_file_source.cpp:529-549 | Ready: the range is indexed or the complete index ends on it; end: the complete index ends before it; pending: the index is incomplete, in order, and ends inside or before it; failed: the request is wrong or indexing has ended for good |
| CsvFileSource.CsvFileSource.AdvanceIndex | src/parsers/csv_file_source.cpp:551-639 | A slice without an error reads the bytes of its budget, at least 4096, or all that are left, and completes at the end; completion is reported exactly when the index is complete; every error but a failed stat is latched; a failed stat ends the slice without moving or latching anything; a failed read is latched and leaves the index as it was; completion carries the exact number of data records; without a disturbance there is no error |
| CsvFileSource.CsvFileSource.Complete | src/parsers/csv_file_source.cpp:623-634 | At the end of the file the index becomes complete with a known total, or has failed |
| CsvFileSource.CsvFileSource.SpanDecodes | src/parsers/csv_file_source.cpp:748-779 | Re-scanning the bytes of a data record alone gives that record, and it starts above 0 |
| CsvFileSource.CsvFileSource.DecodeSpan | src/parsers/csv_file_source.cpp:755-787 | A re-scanned span gives the displayed row of its record, valid UTF-8 for a valid UTF-8 record, and leaves the scanner fresh for the next span |
| CsvFileSource.CsvFileSource.DecodeSpans | src/parsers/csv_file_source.cpp:704-835 | Row k of a page shows data record first + k and carries its ordinal; the token spans the page |
| CsvFileSource.CsvFileSource.ReadPage | src/parsers/csv_file_source.cpp:649-835 | An ok page holds exactly the records asked for as far as they are indexed; hasMore is false only when the index is complete and the page reaches its end; unless a call on the file fails or a cancellation is seen, the answer is decided by what is latched: changed, not indexed yet, unreadable index, or ok, in this order |
| CsvFileSource.CsvFileSource.First | src/parsers/csv_file_source.cpp:845-848 | The page at ordinal 0 |
| CsvFileSource.CsvFileSource.Next | src/parsers/csv_file_source.cpp:850-857 | The page at token.offset + pageSize; an invalid token or an overflowing offset is refused, everything else answered as by ReadPage |
| CsvFileSource.CsvFileSource.Prev | src/parsers/csv_file_source.cpp:859-865 | The page at token.offset - pageSize, not below 0 |
| CsvFileSource.CsvFileSource.Last | src/parsers/csv_file_source.cpp:867-882 | The page at the last multiple of the page size below the total |
| TableSource.TargetsAreNeighbours | src/parsers/csv_file_source.cpp:850-882 | Next is one page on and prev back from there is the same page; near the start prev stops at row 0; last is the last page that has a row, counted from row 0 |
| CsvFileSource.CsvFileSource.Refetch | src/parsers/csv_file_source.cpp:884-962 | An ok result is the full values of the selected cells of the record, in the order asked, within the 64 MiB budget; the budget error means that the selected values exceed it, also when the check cut the scan short; undisturbed, an indexed record is refused for nothing else and any other ordinal as out of range |
| CsvFileSource.PiecesAreUtf8 | src/parsers/csv_file_source.cpp:724-744 | The fragments of a valid UTF-8 record are valid UTF-8 |
| CsvParser.BuildTable | src/parsers/csv_parser.cpp:44-79 | The callbacks build the header and the first 100,000 data rows; truncated is set once 100,000 rows are held |
| CsvParser.Parse | src/parsers/csv_parser.cpp:33-110 | The rows are the first 100,000 data records of the one-shot decode padded to the header width; it fails exactly for an empty file or one without records |
| CsvAgreement.PageAgreesWithParser | src/parsers/csv_file_source.cpp:649-834 | Up to 100,000 rows every unflagged cell of a page is the cell of the one-shot parser; a flagged one is longer there than the cap, starts with its longest cut and, in valid UTF-8, agrees with it in the first cap - 3 bytes |
| CsvAgreement.RefetchAgrees | src/parsers/csv_file_source.cpp:884-962 | A cell not flagged as clamped is what a refetch of it returns; a flagged one is a cut of it in the same sense |
| CsvAgreement.ColumnsBounded | src/parsers/csv_record_scanner.cpp:87-94 | An open file has at most 256 columns |
| CsvAgreement.ServedPageFitsBudget | src/parsers/csv_file_source.cpp:641-647 | Every page the source serves at a page size the settings allow fits 32 MiB |
| CsvAgreement.ScanWritten | src/parsers/csv_record_scanner.cpp:114-344 | The scanner object, fed a written table in any chunks, with a byte order mark or without one, collects the table |
| CsvAgreement.ParseWritten | src/parsers/csv_parser.cpp:33-110 | A table that is written, with a byte order mark or without one, and parsed comes back, padded, up to 100,000 rows; it counts as truncated exactly from 100,000 rows on, and rows are missing exactly beyond 100,000 |
| CsvAgreement.ParseAtTheLimit | src/parsers/csv_parser.cpp:73-75 | A file of a header and exactly 100,000 rows is reported as truncated although all its rows are there |
| SourceWorker.SourceWorker.Idle | src/workers/source_worker.cpp:87-95 | Whatever the UI does to the counters between two jobs, the worker keeps its invariant: while the view can still be indexed, or a current request is parked, a slice is queued unless a failed stat ended them, after which none is |
| SourceWorker.SourceWorker.OpenDescriptor | src/workers/source_worker.cpp:144-215 | A stale open leaves signals and parked request alone; any other one drops the parked request and is signalled exactly if it is still current at its end, with the known total or the first slice behind it |
| SourceWorker.SourceWorker.StartIndexing | src/workers/source_worker.cpp:206-214 | A file that is already complete is reported with its total; otherwise a slice is queued |
| SourceWorker.SourceWorker.AnswerWithRetry | src/workers/source_worker.cpp:123-136 | A query repeated after a cancellation still answers for the same ordinal, and undisturbed it succeeds exactly when it can |
| SourceWorker.SourceWorker.ExecutePageQuery | src/workers/source_worker.cpp:280-306 | One signal exactly if the request is not stale at the end; a covered request gets exactly rows [f, min(f+s, N)) of the whole decode and never "not indexed yet" |
| SourceWorker.SourceWorker.CoveredIsServed | src/parsers/csv_file_source.cpp:529-549 | A page answered while the index covers its range is exact |
| SourceWorker.SourceWorker.First | src/workers/source_worker.cpp:308-329 | Parked exactly while its range is pending; otherwise answered exactly once, or dropped as stale. An answer is exact if nothing was latched or the index covered the range; in any case an ok answer is the indexed part of the range, and unless a call on the file fails or a cancellation is seen the answer is the change of the file if that is latched, else "not indexed yet" exactly if the index is incomplete or has failed and ends at or before the target, else the unreadable index if its disk has failed, else a page that is exact exactly if the index reaches the end of the page or of the file |
| SourceWorker.SourceWorker.Next | src/workers/source_worker.cpp:331-359 | As First, for the page behind the token; a target beyond 64-bit offsets is refused at once and never parked |
| SourceWorker.SourceWorker.Prev | src/workers/source_worker.cpp:361-384 | As First, for the page before the token |
| SourceWorker.SourceWorker.Last | src/workers/source_worker.cpp:386-413 | As First, for the last page of the known total |
| SourceWorker.SourceWorker.IndexSlice | src/workers/source_worker.cpp:217-278 | At most one progress report and behind it at most one page, the answer to the parked request, which otherwise stays or had become stale; a report of completion carries the exact number of data records; while a current request stays parked the next slice is queued and fewer bytes remain; a failed stat rejects the parked request, latches nothing and queues nothing; a failed read does the same and is latched |
| SourceWorker.SourceWorker.Wake | src/workers/source_worker.cpp:249-271 | The parked request after a slice: dropped if stale, rejected on an error, answered once its range is no longer pending; never "not indexed yet" or a partial page |
| SourceWorker.SourceWorker.FinishSlice | src/workers/source_worker.cpp:238-277 | The signals are exactly a report, due on completion and error, and the answer to the parked request; the next slice is queued exactly if there is no error, no completion and the view is current |
| SourceWorker.SourceWorker.Report | src/workers/source_worker.cpp:242-247 | Completion and errors are always reported |
| SourceWorker.SourceWorker.Drain | src/workers/source_worker.cpp:217-278 | The queued slices end, with the remaining bytes as the measure. A request parked before and current after them has been answered by exactly one page if a slice of its view was queued, which is so exactly if no failed stat had ended them; otherwise it is parked still and no page was sent |
| StoppedIndexing.AskAfterFailedStat | src/parsers/csv_file_source.cpp:217-264 | The last slice ends on a failed stat, a page is asked for, all queued slices run: the new request, while it is the newest, is answered exactly if the index covered it, and otherwise stays parked with nothing queued; the only pages sent are the rejection of the request parked before and that answer |
| StoppedIndexing.OpenThenFailStat | src/workers/source_worker.cpp:144-278 | Any open that leaves the index incomplete leads there: after the failed stat of its first slice a request, while it is the newest, waits for good exactly if the sample of the open, which the file determines, does not cover what it asks for |
| StoppedIndexing.AskAfterFailedScan | src/workers/source_worker.cpp:308-359 | The read of the last slice fails, then a page is asked for: nothing is parked any more, and the undisturbed answer to a start at or beyond the index is "not indexed yet", to any other the indexed rows of the range, which are all of its rows exactly if the range, or the file, ends within the index |
| StoppedIndexing.OpenThenFailScan | src/workers/source_worker.cpp:144-359 | Any open that leaves the index incomplete leads there: the sample of the open is all that is ever indexed |
| StoppedIndexing.AskAfterFailedIndex | src/workers/source_worker.cpp:308-359 | Once the disk of the index has failed no request is parked, and an undisturbed answer is the change of the file, "not indexed yet" at or beyond the count of records, even behind a complete index, or the unreadable index |
| StoppedIndexing.LettersSampled | src/parsers/csv_file_source.cpp:454-495 | Of a file of 150,000 two-byte lines an open always indexes 131,071 of the 149,999 data records |
| StoppedIndexing.LettersWait | src/workers/source_worker.cpp:331-359 | With that file and a failed stat, a page of 1,000 rows that exist, 71 of them indexed, is parked for good |
| StoppedIndexing.LettersCutShort | src/workers/source_worker.cpp:331-359 | With that file and a failed read, the same page shows 71 rows, and the one behind it is told "not indexed yet" although no slice will come |
| SourceWorker.SourceWorker.RefetchWithRetry | src/workers/source_worker.cpp:503-512 | A row that is read carries the full values of the record its key names, also after a retry; undisturbed, every indexed record is read unless its values alone exceed the budget |
| SourceWorker.SourceWorker.ReadFits | src/parsers/csv_file_source.cpp:884-962 | What a refetch promises is, undisturbed, the one answer a key can get |
| SourceWorker.SourceWorker.RefetchRows | src/workers/source_worker.cpp:467-544 | A batch carries all its values within 64 MiB or is cleared as a whole; undisturbed, every key gets the full values of its record, or all are cleared because they exceed 64 MiB. An empty reply to a request with keys, or none, means that there is no source or that the view has become stale |
| SourceWorker.BatchBytesIsLength | src/workers/source_worker.cpp:514-524 | What the budget counts for a batch is the length of all values that were read |
| SourceWorker.SourceWorker.ClearBatch | src/workers/source_worker.cpp:526-533 | Clearing keeps the row keys and replaces every result by the budget error |
| SqlitePaging.OrderedSorts | src/parsers/sqlite_table_source.cpp:543-545 | Sorting orders the rows by column and row id and keeps every row |
| SqlitePaging.SortIsUnique | src/parsers/sqlite_table_source.cpp:543-545 | The order is fully determined, so a repeated sort gives every row its old ordinal |
| SqlitePaging.DescendingReverses | src/parsers/sqlite_table_source.cpp:537-545 | Descending order is ascending order read backwards, ties included |
| SqlitePaging.DirectionOf | src/parsers/sqlite_table_source.cpp:537-545 | Ascending, the cells of the column never fall and equal ones are in row-id order; descending, they never rise and equal ones are in reverse row-id order |
| SqlitePaging.OtherDirection | src/parsers/sqlite_table_source.cpp:537-545 | Turning the direction of a column, either way, reads its order backwards |
| SqlitePaging.KeysetCuts | src/parsers/sqlite_table_source.cpp:205-208 | The row-id filters cut the table exactly at the anchor |
| SqlitePaging.JoinIsRange | src/parsers/sqlite_table_source.cpp:192-200 | The order table joined with the unchanged main table delivers the sorted rows of the ordinal range |
| SqlitePaging.BackwardPage | src/parsers/sqlite_table_source.cpp:300-315 | A page read backwards and reversed in place holds the rows before the anchor in page order, with the right anchors |
| SqlitePaging.RefusedIff | src/parsers/sqlite_table_source.cpp:467-490 | A query is refused exactly for a page size outside 1 to 3000, an unknown total, a token without a page, or a next page beyond 64-bit ordinals or offsets |
| SqlitePaging.FirstAnswers | src/parsers/sqlite_table_source.cpp:467-470 | In all three modes the first page is the first slice of the active order, and hasMore is exact |
| SqlitePaging.NextAnswers | src/parsers/sqlite_table_source.cpp:471-474 | In all three modes next is the slice behind the one of the token, also behind a partial last page, where it is empty with an invalid token; hasMore is exact |
| SqlitePaging.PrevAnswers | src/parsers/sqlite_table_source.cpp:475-478 | In all three modes prev is the slice before the one of the token when a full one lies there; from nearer the start keyset and ordinals answer the rows before the token and offset paging the first page again; hasMore is reported by the keyset mode only |
| SqlitePaging.PrevAgreesIff | src/parsers/sqlite_table_source.cpp:475-478 | Keyset and offset paging go back to the same rows exactly if a full page lies before the current one |
| SqlitePaging.LostRowidIff | src/parsers/sqlite_table_source.cpp:210-241 | A keyset token read as an offset stands for row 0: next shows the second page again, which is the page behind the token exactly on the first page, and prev the first page, which is the one before exactly on the second |
| SqlitePaging.LastAnswers | src/parsers/sqlite_table_source.cpp:479-490 | In all three modes last is the slice at the last multiple of the page size below the total |
| SqlitePaging.NextWalk | src/parsers/sqlite_table_source.cpp:166-321 | A walk by next from the first page visits every row exactly once in the active order |
| SqlitePaging.PrevUndoesNext | src/parsers/sqlite_table_source.cpp:166-321 | Prev after next is the page one came from |
| SqlitePaging.VisitShowsPlace | src/parsers/sqlite_table_source.cpp:467-490 | After any sequence of first, next, prev and last queries, each with the token of the page before, the page holds the rows, and its token locates the rows, that the moves lead to |
| SqlitePaging.ModesAgreeIff | src/parsers/sqlite_table_source.cpp:467-490 | Along a sequence of queries keyset and offset paging stand at the same place throughout exactly if it never goes back from the first page |
| SqliteTableSource.SqliteTableSource.Open | src/parsers/sqlite_table_source.cpp:329-449 | An open drops order table and total, also when it fails; it knows a row id only if the table has one, and if nothing fails exactly then: a probe that fails does not fail the open |
| SqliteTableSource.SqliteTableSource.Read | src/parsers/sqlite_table_source.cpp:243-321 | The read loop keeps at most size rows in page order with the anchors of the first and last, and tells whether the cursor held more |
| SqliteTableSource.SqliteTableSource.Fetch | src/parsers/sqlite_table_source.cpp:166-242 | The query built for a direction has the meaning of the active mode; it fails only on a closed source, a bad size, a cancellation or in the engine |
| SqliteTableSource.SqliteTableSource.FetchOrdinals | src/parsers/sqlite_table_source.cpp:178-201 | A range of ordinals, with both overflow guards |
| SqliteTableSource.SqliteTableSource.FetchKeyset | src/parsers/sqlite_table_source.cpp:202-209 | A filter on the row id, read backwards for prev and last |
| SqliteTableSource.SqliteTableSource.FetchOffset | src/parsers/sqlite_table_source.cpp:210-241 | A row offset, with its overflow guard |
| SqliteTableSource.SqliteTableSource.Last | src/parsers/sqlite_table_source.cpp:479-490 | Requires a known total, records it, and never reports more |
| SqliteTableSource.SqliteTableSource.Sort | src/parsers/sqlite_table_source.cpp:513-568 | A sort swaps in the order table and total on success; a failed or cancelled one leaves order and total alone; undisturbed it succeeds exactly for an open table with a row id and a valid column |
| SqliteTableSource.Navigate | src/parsers/sqlite_table_source.cpp:467-490 | The source object driven by any sequence of queries shows the page they mean |
| ViewerSources.ExecuteSqlite | src/workers/source_worker.cpp:415-465 | What a worker does with an open, sort or page job on the SQLite source, retries included, is what the protocol assumes of it, also when a reopen succeeds without finding the row id again |
| ViewerSources.CsvPagesFit | src/parsers/csv_file_source.cpp:649-834 | At any point of indexing an ok CSV page is one the protocol assumes: consecutive records, nothing final claimed too early, and all rows of the range unless a failure is latched |
| PagerState.NormalizePageRows | src/core/pager_state.h:12-15 | The nearest page size from 100 to 3000, 500 without a setting |
| PagerState.PagesCover | src/core/pager_state.h:32-37 | The pages cover all rows and the last one is not empty |
| PagerState.NextIffRowsRemain | src/core/pager_state.h:46-53 | With a known total, next and last are enabled exactly while rows remain behind the page |
| PagerState.PrevIffRowsBefore | src/core/pager_state.h:38-45 | First and prev are enabled exactly while rows lie before the page |
| DataTableViewer.DataTableViewer.CancelPending | src/ui/data_table_viewer.cpp:508-571 | Retires the view: both counters move and every flag, token and pager state is reset; the whole new state and the queued jobs are those of the protocol step |
| DataTableViewer.DataTableViewer.LoadSelectedTable | src/ui/data_table_viewer.cpp:702-763 | A new generation with its own worker, and its open queued; the whole new state and the queued jobs are those of the protocol step |
| DataTableViewer.DataTableViewer.OnSortClicked | src/ui/data_table_viewer.cpp:1068-1108 | Toggles against the pending sort, else the committed one (what that asks for: ViewerProgress.SortClickAsks), and supersedes everything on its way; refused while recovering or while a page is in flight; the whole new state and the queued jobs are those of the protocol step |
| DataTableViewer.DataTableViewer.RecoverSort | src/ui/data_table_viewer.cpp:1132-1142 | Reopens the source before the committed order is restored; the whole new state and the queued jobs are those of the protocol step |
| DataTableViewer.DataTableViewer.FinishSortRecovery | src/ui/data_table_viewer.cpp:1144-1156 | Leaves the sorting state; the whole new state and the queued jobs are those of the protocol step |
| DataTableViewer.DataTableViewer.FailSortRecovery | src/ui/data_table_viewer.cpp:1116-1130 | The order is not trusted any more: sorting and paging stay off; the whole new state and the queued jobs are those of the protocol step |
| DataTableViewer.DataTableViewer.OnOpenCompleted | src/ui/data_table_viewer.cpp:804-852 | Stale signals do nothing; a recovery goes on to the committed sort or ends; a first open asks for the first page or cancels; the whole new state and the queued jobs are those of the protocol step |
| DataTableViewer.DataTableViewer.OnSortCompleted | src/ui/data_table_viewer.cpp:991-1017 | A sort goes on to its first page, a failure recovers, a recovery ends; the whole new state and the queued jobs are those of the protocol step |
| DataTableViewer.DataTableViewer.OnPageReady | src/ui/data_table_viewer.cpp:856-975 | A failure keeps the committed page or recovers; an empty page is not committed; any other page is; the whole new state and the queued jobs are those of the protocol step |
| DataTableViewer.DataTableViewer.Vanished | src/ui/data_table_viewer.cpp:894-912 | The committed page stays and the rows are counted again; the whole new state and the queued jobs are those of the protocol step |
| DataTableViewer.DataTableViewer.Commit | src/ui/data_table_viewer.cpp:914-975 | Page number, token, rows and labels change together, and a pending sort is committed with them; the whole new state and the queued jobs are those of the protocol step |
| DataTableViewer.DataTableViewer.NavigatePage | src/ui/data_table_viewer.cpp:1158-1174 | One request at a time, never on an untrusted order; the whole new state and the queued jobs are those of the protocol step |
| DataTableViewer.DataTableViewer.OnFirstPageClicked | src/ui/data_table_viewer.cpp:1176-1185 | Only when enabled; the whole new state and the queued jobs are those of the protocol step |
| DataTableViewer.DataTableViewer.OnPrevPageClicked | src/ui/data_table_viewer.cpp:1187-1197 | Only when enabled, from the committed token; the whole new state and the queued jobs are those of the protocol step |
| DataTableViewer.DataTableViewer.OnNextPageClicked | src/ui/data_table_viewer.cpp:1199-1209 | Only when enabled, from the committed token; the whole new state and the queued jobs are those of the protocol step |
| DataTableViewer.DataTableViewer.OnLastPageClicked | src/ui/data_table_viewer.cpp:1211-1221 | Only with a known total; the whole new state and the queued jobs are those of the protocol step |
| DataTableViewer.DataTableViewer.OnIndexProgress | src/ui/data_table_viewer.cpp:773-801 | A completed index fixes the total; the whole new state and the queued jobs are those of the protocol step |
| DataTableViewer.DataTableViewer.OnCountCompleted | src/ui/data_table_viewer.cpp:1020-1040 | A count fixes the total unless a sort has; the whole new state and the queued jobs are those of the protocol step |
| ViewerProtocol.SettledOrderAgrees | src/ui/data_table_viewer.cpp:991-1156 | In every run, whenever the viewer is not sorting and trusts its order, the active order of the worker is the committed sort and no current sort or reopen is on its way |
| ViewerProtocol.DisplayAgrees | src/ui/data_table_viewer.cpp:859-936 | In every run in which no recovery reopen without a committed sort has lost the row id, the rows on display are the page of the committed order that page number and token say; for CSV they are exactly the data records from (page-1)*pageSize on, as many as fit or are left, unless indexing has latched a failure; token.offset and row labels are those of the same records |
| ViewerProtocol.NextEnabled | src/ui/data_table_viewer.cpp:913-923 | In every such run, rows behind the page on display imply that next is enabled; for SQLite also conversely, although sorted and offset prev pages report no more rows; a known total is exact |
| ViewerProtocol.BusyAwaitsOne | src/ui/data_table_viewer.cpp:1158-1174 | In every run a busy viewer waits for exactly one request, which is queued, parked, running or answered, and everything else on its way is stale |
| ViewerProtocol.SupersededSortPromotes | src/ui/data_table_viewer.cpp:1132-1142 | A run in which a superseded sort has already promoted its order: the reason why recovery reopens the source |
| ViewerProtocol.RunnableJob | src/workers/source_worker.cpp:280-413 | In every run a page is asked for only behind a successful open, a CSV view never sorts, and its first open comes before any of its slices |
| ViewerProtocol.StepKeeps | src/ui/data_table_viewer.cpp:773-1221 | Every step of UI, worker and queues keeps the invariant |
| ViewerProtocol.Latches | src/workers/source_worker.cpp:238-247 | A failure that indexing latches leaves everything on display as it is |
| ViewerProtocol.Begins | src/workers/source_worker.cpp:417-419 | Only the current job passes the staleness check at its start |
| ViewerProtocol.Emits | src/workers/source_worker.cpp:458-464 | A reply is emitted or, if its job has become stale, may be dropped |
| ViewerProtocol.SortClicked | src/ui/data_table_viewer.cpp:1068-1108 | A click on a header supersedes what was on its way and keeps the invariant |
| ViewerProtocol.PageClicked | src/ui/data_table_viewer.cpp:1176-1221 | A click on a page button keeps the invariant |
| ViewerProtocol.CancelClicked | src/ui/data_table_viewer.cpp:1110-1142 | Cancelling a sort keeps the invariant |
| ViewerProtocol.DeliversOpen | src/ui/data_table_viewer.cpp:804-852 | The completion of an open keeps the invariant, first opens and recoveries alike |
| ViewerProtocol.DeliversSort | src/ui/data_table_viewer.cpp:991-1017 | The completion of a sort keeps the invariant |
| ViewerProtocol.DeliversPage | src/ui/data_table_viewer.cpp:856-975 | The arrival of a page keeps the invariant |
| ViewerProtocol.DeliversProgress | src/ui/data_table_viewer.cpp:773-801 | Index progress keeps the invariant; a total is only learnt behind the open |
| ViewerProtocol.Commits | src/ui/data_table_viewer.cpp:914-936 | Committing the page that was asked for shows it: rows, token, labels and pager agree |
| ViewerProtocol.SqliteLands | src/ui/data_table_viewer.cpp:1176-1221 | A SQLite page that arrives is the slice the clicked button stands for |
| ViewerProtocol.CsvLands | src/ui/data_table_viewer.cpp:1176-1221 | A CSV page that arrives starts at the clicked page, and an empty one means that no rows remain |
| ViewerProtocol.LastStarts | src/ui/data_table_viewer.cpp:1211-1221 | The last page of the pager is the one the source takes for the last |
| ViewerProgress.OpenShows | src/ui/data_table_viewer.cpp:702-975 | From any state of any run: a file or table that is loaded shows its first page, and the view is at rest; it can be sorted exactly if its row id was found, and the rows of a table are being counted |
| ViewerProgress.CountArrives | src/ui/data_table_viewer.cpp:1020-1040 | The count becomes the total of the view and changes nothing else |
| ViewerProgress.CountFails | src/ui/data_table_viewer.cpp:1020-1040 | A failed count is noted and changes nothing else; a count behind a sort is ignored, whatever it says |
| ViewerProgress.IndexEnds | src/ui/data_table_viewer.cpp:773-801 | The end of indexing makes the total known, and whether rows remain behind the page |
| ViewerProgress.IndexGoesOn | src/ui/data_table_viewer.cpp:773-801 | Progress before the end, and a failure of indexing, leave the view as it is |
| ViewerProgress.NextIsExact | src/core/pager_state.h:46-53 | In every run: at rest with a known total, next is enabled exactly while rows remain behind the page |
| ViewerProgress.PageTurns | src/ui/data_table_viewer.cpp:1158-1221 | From any resting view of any run: an enabled page button shows the page it means (the first, the one before, the one behind, the one with the last row) in the order on display, and the view is at rest again |
| ViewerProgress.BusyOrLeft | src/ui/data_table_viewer.cpp:1158-1221 | In every run: a view that waits for a page or a sort takes no page button, a recovery cannot be cancelled, and a view that was left reacts to nothing |
| ViewerProgress.LeavingKeepsRows | src/ui/data_table_viewer.cpp:508-571 | Leaving a view keeps its rows on display and makes everything on its way stale |
| ViewerProgress.EmptyPage | src/ui/data_table_viewer.cpp:894-912 | An answer without rows leaves page, rows and token, says that nothing follows, and has the rows of a table counted again, whatever a sort has said about them |
| ViewerProgress.PageFails | src/ui/data_table_viewer.cpp:859-879 | A page that cannot be had leaves page number, rows, token and order as they were |
| ViewerProgress.SortClickAsks | src/ui/data_table_viewer.cpp:1068-1108 | In every run: a click that is taken on the column sorted by, or about to be, queues a sort whose order is that one backwards; a click on any other column queues an ascending one, in which the cells of the column never fall |
| ViewerProgress.SortClickIgnored | src/ui/data_table_viewer.cpp:1068-1088 | Any other click changes nothing: without a sortable view, during a recovery, and while a page without a sort is in flight |
| ViewerProgress.SortShows | src/ui/data_table_viewer.cpp:991-1017 | From any resting view of any run: a click sorts as above, and the first page of that order is on display, committed, with the total known |
| ViewerProgress.SortUndone | src/ui/data_table_viewer.cpp:1110-1156 | A sort that is cancelled or fails leaves rows, page, token and committed order as they were, and the worker is back on that order |
| ViewerProgress.FailedReopenLocks | src/ui/data_table_viewer.cpp:1116-1130 | If the source cannot be reopened the rows stay on display, and no page button and no header click is taken any more |
| LostRowid.AdriftDisplay | src/ui/data_table_viewer.cpp:859-936 | In every run with such a reopen the rows on display are those of the page number or those that the token names as an offset |
| LostRowid.AdriftShowsIff | src/ui/data_table_viewer.cpp:859-936 | Of the pages that then arrive exactly those are shown under their right number whose offset is the one of the page asked for |
| LostRowid.LossMisleads | src/ui/data_table_viewer.cpp:1116-1156 | A run in which it goes wrong: the second page is on display, a sort is clicked and cancelled, the reopen does not find the row id, and next shows the second page again as page 3 |
| ViewerDesk.Desk.Perform | src/ui/data_table_viewer.cpp:773-1221 | Whatever the user or a signal makes the viewer object do, its state and its queued jobs move by one step of the protocol, and within the view nothing of the worker changes |
| ViewerDesk.Desk.Open | src/ui/data_table_viewer.cpp:702-763 | Loading a file or table is the protocol step that retires the old view and its worker |
| ViewerDesk.Desk.Take | src/workers/source_worker.cpp:417-419 | The oldest job leaves the queue by a step of the protocol |
| ViewerDesk.Desk.Send | src/workers/source_worker.cpp:458-464 | A signal of the worker reaches the queue of the UI thread by a step of the protocol |
| SqliteSession.SqliteSession.Work | src/workers/source_worker.cpp:415-465 | A job of the SQLite worker, run by the source object while the UI thread acts, is the start, the acts and the end of a job in the protocol |
| SqliteSession.SqliteSession.InStepAgrees | src/ui/data_table_viewer.cpp:859-936 | Viewer object and source object in step with the protocol agree: without a sort under way the order of the source is the committed one, and unless a reopen has lost the row id rows, token, row labels and next button are those of one page of that order; otherwise the rows are those of the page number or of the offset in the token |
| SqliteSession.Browse | src/ui/data_table_viewer.cpp:702-1221 | After any sequence of loads, clicks, signals and worker turns, with any engine failures, those of the row-id probes included, the two objects agree in that sense |
| CsvSession.CsvSession.OpenFile | src/workers/source_worker.cpp:144-215 | The open of the worker object, with the UI thread acting meanwhile, is the start and end of an open in the protocol, with the total of a short file announced behind it |
| CsvSession.CsvSession.ServePage | src/workers/source_worker.cpp:280-413 | A page slot of the worker object is a park, or the start and end of a page job whose reply the protocol allows |
| CsvSession.CsvSession.RunSlice | src/workers/source_worker.cpp:217-278 | A slice of the worker object is a progress report behind the open with exact totals, a drop or wake of the parked request, and the end of its answer |
| CsvSession.CsvSession.InStepAgrees | src/ui/data_table_viewer.cpp:859-936 | Viewer object and worker object in step with the protocol agree: at most one slice is queued, and on display are the data records of the page in the open file, exactly [(page-1)s, min(page s, N)) unless its source has latched a failure, every row with the cells and flags of its record, whole or cut to the cap of the page size; labels, token and total match, and next is enabled while records remain |
| CsvSession.Browse | src/ui/data_table_viewer.cpp:702-1221 | After any sequence of loads, clicks, signals, jobs and slices, with any failures, viewer object and worker object agree, records and cells |
| CopyText.Utf8ByteCount | src/ui/table_renderer.cpp:33-46 | The unit-by-unit count never underestimates the UTF-8 size |
| CopyText.NeverUnderestimates | src/ui/table_renderer.cpp:28-46 | The count is the UTF-8 size plus 2 for every surrogate pair, exactly |
| CopyText.SingleLineHasNoBreak | src/ui/cell_text.h:14-36 | A folded cell has no line break, and a cell without one is unchanged |
| CopyText.RunBecomesSpace | src/ui/cell_text.h:14-36 | Every run of line breaks becomes exactly one space, between the folded texts before and behind it |
| CopyText.FoldBreaks | src/ui/cell_text.h:14-36 | The one-pass loop computes that fold |
| CopyText.SortedCellsInOrder | src/ui/table_renderer.cpp:277-284 | The sorted selection is in visual row and column order and has the same cells |
| CopyText.BuildPlainText | src/ui/table_renderer.cpp:371-385 | The loop writes the cells one behind the other, with the separators that PlainIsLaid tells |
| CopyText.GridAxes | src/ui/table_renderer.cpp:391-397 | The rows and columns of the grid are exactly those of the selected cells, ascending |
| CopyText.CursorFinds | src/ui/table_renderer.cpp:432-438 | Once the cursor has passed everything before a position, the cell under it is what an independent lookup finds |
| CopyText.AppendRow | src/ui/table_renderer.cpp:430-447 | One grid row from one advancing cursor |
| CopyText.BuildMarkdownText | src/ui/table_renderer.cpp:387-454 | For every sorted selection the single-cursor grid equals the grid of independent lookups, whose text MarkdownReadsBack tells |
| CopyReading.ValueArrives | src/ui/table_renderer.cpp:488-503 | What is kept for a place is the value that arrived last for it; without columns the values are those of the columns from 0 on |
| CopyReading.CellIsCopied | src/ui/table_renderer.cpp:355-369 | A clamped cell is copied as the value that arrived last for its place, on a single line; any other one, and a clamped one without a value, as it is displayed; there is no other text for it |
| CopyReading.FailedRowsAre | src/ui/table_renderer.cpp:505-515 | The rows reported as incomplete are exactly those with a clamped cell for which nothing arrived, ascending |
| CopyReading.PlainIsLaid | src/ui/table_renderer.cpp:371-385 | Whatever the cells hold, they lie in the plain text one behind the other, each as it has to be copied, with one unit in between: a line feed where the row changes, otherwise a tab |
| CopyReading.PlainReadsBack | src/ui/table_renderer.cpp:371-385 | A plain text, split at line feeds and tabs, is the grid of the selection exactly if no cell is copied as a text with a tab or line feed |
| CopyReading.EscapedJoins | src/ui/table_renderer.cpp:416-417 | Escaping puts one backslash before every bar and changes nothing else |
| CopyReading.EscapedReads | src/ui/table_renderer.cpp:440-442 | A reader that takes a bar behind a backslash for text finds the text that was escaped, unless its last backslash falls on the bar behind it |
| CopyReading.TrailingBackslashMerges | src/ui/table_renderer.cpp:440-442 | A text that ends in a backslash swallows the bar behind it, and with it the next cell |
| CopyReading.BackslashMergesCells | src/ui/table_renderer.cpp:440-442 | An example: a row of two cells that reads as one |
| CopyReading.MarkdownReadsBack | src/ui/table_renderer.cpp:387-454 | A Markdown text, split at line feeds and at bars without a backslash, has the headings of the columns, a rule, one row for each of the first 1000 rows with the first cell at each place or a space, and a note exactly if there are more; this exactly if no heading ends in a backslash and no cell shown holds a line feed or ends in a backslash |
| CopyReading.CopyReadsBack | src/ui/table_renderer.cpp:371-454 | Either kind of copy, with any values that arrived |
| TableRenderer.RowsToRefetch | src/ui/table_renderer.cpp:289-322 | The request names exactly the clamped selected cells whose row has a key, rows and columns ascending |
| TableRenderer.DisplayedFits | src/ui/table_renderer.cpp:324-335 | Refuses exactly when the displayed text and a separator each exceed the budget |
| TableRenderer.DisplayedIsPlain | src/ui/table_renderer.cpp:324-335 | What is priced beforehand is exactly the plain text as displayed and one byte |
| TableRenderer.TableRenderer.PerformCopy | src/ui/table_renderer.cpp:268-353 | A copy is refused, written at once or pending; it becomes the newest request and drops any older pending one |
| TableRenderer.TableRenderer.OnRefetchRowsCompleted | src/ui/table_renderer.cpp:466-534 | Only the newest, pending request can write, and it writes what its cells and the values that arrived make; any budget failure or an oversized text prevents the write, and rows without a value are counted |
| TableRenderer.CopySession | src/ui/table_renderer.cpp:268-534 | Over all runs of copies, completions in any order, page changes and clearings: an event writes exactly if it is the newest copy and wants no value, or the completion of the newest copy while that waits, neither over the budget; it writes the selection of that copy, readable as CopyReadsBack says; no request writes twice, and every payload is at most 64 MiB of UTF-8 |

## Left out

- Delimiter detection, column names and types, the numeric cache, the sample cells behind type inference: the delimiter is given (neither a quote, CR, LF nor NUL), and of the sample only the counts that steer the scan are kept.
- Callbacks that run in the middle of a feed: they are delivered behind it, in the same order, so an index failure inside a feed is seen after that feed.
- Win32 and POSIX file calls, temporary files, path encoding and the byte layout of the index header: an abstract disk and file with a possible failure at every call.
- A file or table that is modified behind the program's back, except as the latched "changed" state: reads return the bytes that were there at the open.
- A table with a row id whose source has lost it is taken to come in row-id order; without an ORDER BY SQLite promises none, so such a view may be worse off than `LostRowid` says.
- The worker of a view that was left: its later signals may be anything for the old view, and its own state is not followed.
- SourceWorker.SourceWorker.Drain: does not bound the slices queued for one view, since an open repeated for the same view queues another; in every run of CsvSession, where a view is opened once, at most one is queued.
- SQL text, storage classes, double-quoted-string probing, interruption and the row count worker's own query: a query is its meaning on the sequence of rows; sort ranks stand for SQLite's comparison of column values.
- SQLite cell texts, their 4096-byte clamp, primary-key refetch keys and refetch of SQLite rows.
- Widgets, header state, status texts, shortcuts, themes, settings, the table picker, timers and the 100 ms progress throttle (progress may be reported at any slice).
- The string form of the page-size setting, which parses and then normalises like the number.
- A page result without data, which neither source produces.
- The parsing path for formats without paging.
- The conversion of refetched values from UTF-8 to UTF-16: they reach the renderer as text.
- Thread start, shutdown and interruption requests.
- Tables within 3000 rows of the largest 64-bit integer, where the overflow guards of the page queries would refuse the last page.
