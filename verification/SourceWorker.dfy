/** The worker thread's side of a paged CSV view: page requests are answered at once when the
    index covers them and parked otherwise; queued index slices interleave with requests and
    wake the parked one.  The UI thread may move the shared generation counters at any point. */
module SourceWorker {
  import opened CsvGrammar
  import CsvMachine
  import opened CsvRecordScanner
  import opened CsvRecordIndex
  import opened CsvFileSource
  import opened CsvRefetch
  import opened PageRow
  import opened TableSource

  const SLICE_BYTES := 256 * 1024

  /** The row a copy needs in full, and the columns it needs of it. */
  datatype RefetchKey = RefetchKey(ordinal: Option<int>, selectedColumns: seq<int>)

  /** The values of a batch that could be read, in bytes. */
  function BatchBytes(results: seq<(int, RefetchResult)>): nat {
    if results == [] then 0
    else
      var last := results[|results| - 1].1;
      BatchBytes(results[..|results| - 1]) + if last.RefetchOk? then RowBytes(last.values) else 0
  }

  /** ... which is the length of all of them written one behind the other. */
  lemma {:induction false} BatchBytesIsLength(results: seq<(int, RefetchResult)>)
    ensures BatchBytes(results) == |AllValues(results)|
    decreases |results|
  {
    if results != [] {
      BatchBytesIsLength(results[..|results| - 1]);
      var last := results[|results| - 1].1;
      if last.RefetchOk? {
        RowBytesIsLength(last.values);
      }
    }
  }

  function AllValues(results: seq<(int, RefetchResult)>): seq<Byte> {
    if results == [] then []
    else
      var last := results[|results| - 1].1;
      AllValues(results[..|results| - 1]) + if last.RefetchOk? then CsvMachine.Joined(last.values) else []
  }

  /** Every entry of a batch says that the budget was exceeded, and none carries a value. */
  ghost predicate AllRefused(results: seq<(int, RefetchResult)>) {
    forall k | 0 <= k < |results| :: results[k].1 == RefetchError(CopyBudgetExceeded)
  }

  /** The atomic counters shared with the UI thread, which only ever raises them. */
  class Generations {
    var viewGen: nat
    var opGen: nat

    constructor (viewGen: nat, opGen: nat)
      ensures this.viewGen == viewGen && this.opGen == opGen
    {
      this.viewGen, this.opGen := viewGen, opGen;
    }

    /** Whatever the UI thread does meanwhile. */
    method Interleave()
      modifies this
      ensures old(viewGen) <= viewGen && old(opGen) <= opGen
    {
      var v: nat, o: nat := *, *;
      viewGen, opGen := viewGen + v, opGen + o;
    }
  }

  /** A next page whose ordinal leaves the range of 64-bit offsets. */
  predicate BeyondOffsets(q: Query, pageSize: int) {
    q.NextPage? && (pageSize <= 0 || q.token.offset > INT64_MAX - pageSize)
  }

  /** A query a source could answer if its rows are there. */
  predicate Askable(q: Query, pageSize: int) {
    match q
    case FirstPage => true
    case NextPage(token) => token.valid && token.offset <= INT64_MAX - pageSize
    case PrevPage(token) => token.valid
    case LastPage(total) => total >= 0
  }

  /** ... with parameters that are not wrong in themselves. */
  predicate WellFormed(q: Query, pageSize: int) {
    Askable(q, pageSize) && pageSize > 0 && Target(q, pageSize) >= 0
  }

  /** An error that says more than "not yet". */
  predicate Refused(r: PageResult) {
    r.PageError? && r.error != NotIndexedYet && r.error != Cancelled
  }

  datatype PendingPageRequest = PendingPageRequest(viewGen: nat, opGen: nat, firstOrdinal: int, pageSize: int,
                                                   query: Query)

  /** What makes a request pending in the first place. */
  predicate WellParked(r: PendingPageRequest) {
    r.firstOrdinal == Target(r.query, r.pageSize) && r.firstOrdinal >= 0 && r.pageSize > 0
  }

  datatype Signal =
    | OpenCompleted(viewGen: nat, opGen: nat, ok: bool)
    | PageReady(viewGen: nat, opGen: nat, result: PageResult)
    | IndexProgressed(viewGen: nat, rows: nat, isComplete: bool, failed: bool)

  class SourceWorker {
    const gens: Generations
    var source: CsvFileSource?
    var parked: Option<PendingPageRequest>
    var slices: seq<nat>             // index slices waiting in the event queue, by view
    var signals: seq<Signal>         // emitted so far
    ghost var openView: Option<nat>  // the view whose successful open was signalled
    ghost var statStopped: bool      // the last of its slices ended on a failed stat, which latches nothing

    constructor (gens: Generations)
      ensures this.gens == gens && Valid() && signals == [] && source == null
      ensures parked == None && slices == [] && openView == None && !statStopped
    {
      this.gens := gens;
      source, parked, slices, signals := null, None, [], [];
      openView, statStopped := None, false;
    }

    predicate IsStale(viewGen: nat, opGen: nat)
      reads gens
    {
      gens.viewGen != viewGen || gens.opGen != opGen
    }

    predicate IsViewStale(viewGen: nat)
      reads gens
    {
      gens.viewGen != viewGen
    }

    /** The index can still grow on behalf of the current view. */
    ghost predicate Indexing()
      reads this, gens, source, if source != null then {source.index} else {}
    {
      && source != null && openView == Some(gens.viewGen)
      && source.IsOpen() && !source.Latched() && !source.index.completeFlag
    }

    /** A slice of the current view is queued, unless a failed stat ended them. */
    ghost predicate SliceQueued()
      reads this, gens
    {
      gens.viewGen in slices || statStopped
    }

    ghost predicate SourceValid()
      reads this, source, if source != null then {source.index, source.indexScanner} else {}
    {
      source != null ==> source.Valid()
    }

    /** The parked request, while it is still the newest one of the current view. */
    ghost predicate ParkedIsCurrent()
      reads this, gens
    {
      && parked.Some? && parked.value.viewGen == gens.viewGen && parked.value.opGen == gens.opGen
      && openView == Some(gens.viewGen)
    }

    ghost predicate Valid()
      reads this, gens, source, if source != null then {source.index, source.indexScanner} else {}
    {
      && SourceValid()
      && (openView.Some? ==> openView.value <= gens.viewGen && source != null && source.IsOpen())
      && (parked.Some? ==> parked.value.viewGen <= gens.viewGen && parked.value.opGen <= gens.opGen)
      && (parked.Some? ==> WellParked(parked.value))
      && (statStopped ==> openView.Some? && openView.value !in slices)
      && (Indexing() ==> SliceQueued())
      && (ParkedIsCurrent() ==> SliceQueued())
    }

    /** The UI thread moving on between two jobs of the worker breaks nothing. */
    method Idle()
      requires Valid()
      modifies gens
      ensures Valid() && old(gens.viewGen) <= gens.viewGen && old(gens.opGen) <= gens.opGen
    {
      hide CsvFileSource.Valid;
      gens.Interleave();
    }

    /** The UI thread raises the counters to given values. */
    method Raise(viewGen: nat, opGen: nat)
      requires Valid() && gens.viewGen <= viewGen && gens.opGen <= opGen
      modifies gens
      ensures Valid() && gens.viewGen == viewGen && gens.opGen == opGen
    {
      hide CsvFileSource.Valid;
      gens.viewGen, gens.opGen := viewGen, opGen;
    }

    /** Opens the file.  The first slice is queued once the open has been signalled. */
    method OpenDescriptor(viewGen: nat, opGen: nat, bytes: seq<Byte>, d: Byte, cancel: CancelCheck)
      returns (outcome: Option<bool>, ghost quiet: bool)
      requires Valid() && ValidDelimiter(d) && d != 0
      modifies this, gens, source, if source != null then {source.index} else {}
      ensures Valid()
      ensures old(IsStale(viewGen, opGen)) ==> outcome == None && parked == old(parked)
      ensures !old(IsStale(viewGen, opGen)) ==> parked == None
      ensures old(gens.viewGen) <= gens.viewGen && old(gens.opGen) <= gens.opGen
      ensures outcome == None <==> gens.viewGen != viewGen || gens.opGen != opGen
      ensures outcome == None ==> signals == old(signals) && slices == old(slices)
      ensures outcome == Some(true) ==> openView == Some(viewGen) && source != null && source.IsOpen()
      ensures outcome == Some(true) ==> source.file == bytes && source.delimiter == d
      ensures source == old(source) || (fresh(source) && fresh(source.index))
      ensures !old(IsStale(viewGen, opGen)) ==>
        source != null && (source.indexScanner != null ==> fresh(source.indexScanner))
      ensures outcome == Some(true) ==> !source.Latched() && source.knownTotal.Some? == source.index.completeFlag
      ensures outcome == Some(false) ==>
        signals == old(signals) + [OpenCompleted(viewGen, opGen, false)] && slices == old(slices)
      ensures outcome == Some(true) ==>
        Started(viewGen, old(signals) + [OpenCompleted(viewGen, opGen, true)], old(slices))
      ensures outcome == Some(true) ==> !Unreadable(bytes, d) && source.Sampled(bytes, d)
      ensures outcome == Some(false) ==> source != null && (quiet && NeverFires(cancel) && !source.index.failed ==>
        Unreadable(bytes, d))
    {
      hide SourceWorker.Valid, CsvFileSource.Valid, CsvFileSource.IsOpen, CsvFileSource.Sampled, Unreadable, NeverFires;
      if IsStale(viewGen, opGen) {
        return None, true;
      }
      parked, openView, statStopped := None, None, false;
      if source == null {
        source := new CsvFileSource(d);
      }
      var ok;
      ok, quiet := source.Open(bytes, d, cancel);
      outcome := FinishOpen(viewGen, opGen, ok);
    }

    /** The open has ended; it is announced unless nobody waits for it any more. */
    method FinishOpen(viewGen: nat, opGen: nat, ok: bool) returns (outcome: Option<bool>)
      requires SourceValid() && source != null && parked == None && openView == None && !statStopped
      requires ok ==> source.IsOpen() && !source.Latched() && source.knownTotal.Some? == source.index.completeFlag
      modifies gens, `signals, `slices, `openView
      ensures Valid() && old(gens.viewGen) <= gens.viewGen && old(gens.opGen) <= gens.opGen
      ensures outcome == if IsStale(viewGen, opGen) then None else Some(ok)
      ensures outcome == None ==> signals == old(signals) && slices == old(slices)
      ensures outcome == Some(false) ==>
        signals == old(signals) + [OpenCompleted(viewGen, opGen, false)] && slices == old(slices)
      ensures outcome == Some(true) ==> openView == Some(viewGen)
      ensures outcome == Some(true) ==>
        Started(viewGen, old(signals) + [OpenCompleted(viewGen, opGen, true)], old(slices))
    {
      hide SourceWorker.Valid, CsvFileSource.Valid, CsvFileSource.IsOpen;
      gens.Interleave();
      NotOpened();
      if IsStale(viewGen, opGen) {
        return None;
      }
      signals := signals + [OpenCompleted(viewGen, opGen, ok)];
      outcome := Some(ok);
      if ok {
        StartIndexing(viewGen);
      } else {
        NotOpened();
      }
    }

    /** A worker without an open view has little to keep. */
    lemma NotOpened()
      requires SourceValid() && parked == None && openView == None && !statStopped
      ensures Valid()
    {
      hide CsvFileSource.Valid, CsvFileSource.IsOpen;
    }

    /** Behind the completion of the open comes either the known total or the first slice. */
    ghost predicate Started(viewGen: nat, signalled: seq<Signal>, queued: seq<nat>)
      requires source != null
      reads `source, source`knownTotal, `signals, `slices
    {
      if source.knownTotal.Some? then
        signals == signalled + [IndexProgressed(viewGen, source.knownTotal.value, true, false)] && slices == queued
      else signals == signalled && slices == queued + [viewGen]
    }

    /** A file that is already complete is reported; otherwise the first slice is queued. */
    method StartIndexing(viewGen: nat)
      requires SourceValid() && source != null && source.IsOpen() && !source.Latched() && parked == None
      requires viewGen == gens.viewGen
      requires source.knownTotal.Some? == source.index.completeFlag && !statStopped
      modifies `openView, `signals, `slices
      ensures Valid() && openView == Some(viewGen) && Started(viewGen, old(signals), old(slices))
    {
      hide CsvFileSource.Valid, CsvFileSource.IsOpen;
      openView := Some(viewGen);
      if source.knownTotal.Some? {
        signals := signals + [IndexProgressed(viewGen, source.knownTotal.value, true, false)];
      } else {
        slices := slices + [viewGen];
      }
    }

    // ---- Page requests ---------------------------------------------------------------------

    /** The query itself. */
    method Answer(query: Query, pageSize: int, cancel: CancelCheck) returns (result: PageResult, ghost quiet: bool)
      requires source != null && source.Valid()
      modifies source.index, source`sourceChanged
      ensures quiet && NeverFires(cancel) && Askable(query, pageSize) && pageSize > 0 ==>
        source.Outcome(result, Target(query, pageSize), pageSize)
      ensures source.Valid() && source.Keeps(old(source.Failures()))
      ensures source.Untouched(old(source.index.contents), old(source.index.completeFlag))
      ensures result.PageOk? ==>
        Askable(query, pageSize) && source.PageAnswers(result.page, Target(query, pageSize), pageSize)
      ensures result == PageError(NotIndexedYet) ==>
        pageSize > 0 && !source.index.IsComplete() && Target(query, pageSize) >= |source.index.contents|
      ensures result == PageError(NotIndexedYet) || result == PageError(Cancelled) ==>
        source.index.failed == old(source.index.failed)
      ensures BeyondOffsets(query, pageSize) ==> Refused(result)
    {
      hide CsvFileSource.Valid, CsvFileSource.PageShows;
      match query
      case FirstPage => result, quiet := source.First(pageSize, cancel);
      case NextPage(token) => result, quiet := source.Next(token, pageSize, cancel);
      case PrevPage(token) => result, quiet := source.Prev(token, pageSize, cancel);
      case LastPage(total) => result, quiet := source.Last(pageSize, Some(total), cancel);
    }

    /** A cancelled query is repeated once if the request is still current and nothing new was
        interrupted. */
    method AnswerWithRetry(viewGen: nat, opGen: nat, query: Query, pageSize: int, cancel: CancelCheck)
      returns (result: PageResult, ghost quiet: bool)
      requires source != null && source.Valid()
      modifies gens, source.index, source`sourceChanged
      ensures quiet && NeverFires(cancel) && Askable(query, pageSize) && pageSize > 0 ==>
        source.Outcome(result, Target(query, pageSize), pageSize)
      ensures source.Valid() && source.Keeps(old(source.Failures()))
      ensures old(gens.viewGen) <= gens.viewGen && old(gens.opGen) <= gens.opGen
      ensures source.Untouched(old(source.index.contents), old(source.index.completeFlag))
      ensures result.PageOk? ==>
        Askable(query, pageSize) && source.PageAnswers(result.page, Target(query, pageSize), pageSize)
      ensures result == PageError(NotIndexedYet) ==>
        pageSize > 0 && !old(source.index.IsComplete()) && Target(query, pageSize) >= |source.index.contents|
      ensures BeyondOffsets(query, pageSize) ==> Refused(result)
    {
      hide CsvFileSource.Valid, CsvFileSource.PageShows;
      result, quiet := Answer(query, pageSize, cancel);
      gens.Interleave();
      if result == PageError(Cancelled) {
        var interrupted: bool := *;
        if !IsStale(viewGen, opGen) && !interrupted {
          result, quiet := Answer(query, pageSize, cancel);
          gens.Interleave();
        }
      }
    }

    /** The index covers what a query asks for: all of its rows, or everything there is. */
    ghost predicate Covered(query: Query, pageSize: int)
      requires source != null
      reads `source, source, source.index
    {
      pageSize > 0 && Target(query, pageSize) >= 0 &&
      (|source.index.contents| >= Target(query, pageSize) + pageSize || source.index.IsComplete())
    }

    /** A page that holds exactly the rows [f, min(f + pageSize, N)) of the whole-file decode. */
    ghost predicate Exact(page: Page, query: Query, pageSize: int)
      requires source != null
      reads `source, source`file, source`delimiter, source`columnCount
    {
      var f := Target(query, pageSize);
      && f >= 0 && pageSize > 0
      && source.PageShows(page, f, pageSize)
      && |page.rows| == (if f >= source.Total() then 0 else Min(pageSize, source.Total() - f))
      && page.token.offset == f && page.token.valid == (page.rows != [])
      && (!page.hasMore ==> f + |page.rows| >= source.Total())
    }

    /** The index never holds more than the file, and all of it once complete. */
    lemma CountedRows()
      requires source != null && source.Valid()
      ensures source.index.dataRecordCount == |source.index.contents| <= source.Total()
      ensures source.index.IsComplete() ==> |source.index.contents| == source.Total()
    {
    }

    /** What a served request receives when the index covered it. */
    ghost predicate ServedWell(result: PageResult, query: Query, pageSize: int)
      requires source != null
      reads `source, source`file, source`delimiter, source`columnCount
    {
      && result != PageError(NotIndexedYet)
      && (result.PageOk? ==> Askable(query, pageSize) && Exact(result.page, query, pageSize))
    }

    /** A well-formed request that is answered gets its page unless something outside interfered. */
    ghost predicate ServedIfUndisturbed(result: PageResult, query: Query, pageSize: int, quiet: bool,
                                        cancel: CancelCheck)
      requires source != null
      reads `source, source, source.index
    {
      source.Undisturbed(quiet, cancel) ==>
        (result.PageOk? <==> WellFormed(query, pageSize))
    }

    /** What a well-formed request is told when no system call on the file fails and nothing is cancelled:
        that the file has changed, that its start is not indexed yet, that the disk of the index has
        failed, or a page, which is exact just if the index reaches the end of the page or of the file. */
    ghost predicate Decided(result: PageResult, query: Query, pageSize: int)
      requires source != null
      reads `source, source, source.index
    {
      var f, n := Target(query, pageSize), |source.index.contents|;
      if source.sourceChanged then result == PageError(SourceChanged)
      else if f >= n && !source.index.IsComplete() then result == PageError(NotIndexedYet)
      else if source.index.failed then result == PageError(SpansUnreadable)
      else result.PageOk? && (Exact(result.page, query, pageSize) <==> n >= Min(f + pageSize, source.Total()))
    }

    /** All that a direct answer promises, whatever has been latched; `covered` says whether the
        index covered the request when it was decided to answer it. */
    ghost predicate Faithful(result: PageResult, query: Query, pageSize: int, covered: bool, quiet: bool,
                             cancel: CancelCheck)
      requires source != null
      reads `source, source, source.index
    {
      && (result.PageOk? ==>
           Askable(query, pageSize) && source.PageAnswers(result.page, Target(query, pageSize), pageSize))
      && (covered ==> ServedWell(result, query, pageSize))
      && (quiet && NeverFires(cancel) && WellFormed(query, pageSize) ==> Decided(result, query, pageSize))
    }

    /** The outcome of a page read, seen from the whole file. */
    lemma OutcomeDecides(result: PageResult, query: Query, pageSize: int)
      requires source != null && source.Valid() && pageSize > 0 && Target(query, pageSize) >= 0
      requires source.Outcome(result, Target(query, pageSize), pageSize)
      requires result.PageOk? ==> source.PageAnswers(result.page, Target(query, pageSize), pageSize)
      ensures Decided(result, query, pageSize)
    {
      hide CsvFileSource.Valid, CsvFileSource.PageShows, CsvFileSource.Total;
      CountedRows();
    }

    lemma AnswerIsFaithful(result: PageResult, query: Query, pageSize: int, covered: bool, quiet: bool,
                           cancel: CancelCheck)
      requires source != null && source.Valid()
      requires result.PageOk? ==>
        Askable(query, pageSize) && source.PageAnswers(result.page, Target(query, pageSize), pageSize)
      requires covered ==> ServedWell(result, query, pageSize)
      requires quiet && NeverFires(cancel) && Askable(query, pageSize) && pageSize > 0 ==>
        source.Outcome(result, Target(query, pageSize), pageSize)
      ensures Faithful(result, query, pageSize, covered, quiet, cancel)
    {
      hide CsvFileSource.Valid, CsvFileSource.PageAnswers, CsvFileSource.Outcome, ServedWell, Decided;
      if quiet && NeverFires(cancel) && WellFormed(query, pageSize) {
        OutcomeDecides(result, query, pageSize);
      }
    }

    /** An answer is one more signal. */
    ghost predicate Emitted(before: seq<Signal>, viewGen: nat, opGen: nat, answer: Option<PageResult>)
      reads `signals
    {
      signals == (if answer.Some? then before + [PageReady(viewGen, opGen, answer.value)] else before)
    }

    /** An answer given while the index covers the query is exact. */
    lemma CoveredIsServed(result: PageResult, query: Query, pageSize: int, whole: bool)
      requires source != null && source.Valid() && pageSize > 0 && Target(query, pageSize) >= 0
      requires |source.index.contents| >= Target(query, pageSize) + pageSize || whole
      requires whole ==> |source.index.contents| == source.Total()
      requires result.PageOk? ==>
        Askable(query, pageSize) && source.PageAnswers(result.page, Target(query, pageSize), pageSize)
      requires result == PageError(NotIndexedYet) ==> Target(query, pageSize) >= |source.index.contents| && !whole
      ensures ServedWell(result, query, pageSize)
    {
      CountedRows();
    }

    /** Runs a query and emits its result unless the request has become stale. */
    method ExecutePageQuery(viewGen: nat, opGen: nat, query: Query, pageSize: int, cancel: CancelCheck)
      returns (answer: Option<PageResult>, ghost quiet: bool)
      requires SourceValid() && source != null
      modifies gens, source.index, source`sourceChanged, `signals
      ensures SourceValid() && source.Keeps(old(source.Failures()))
      ensures old(gens.viewGen) <= gens.viewGen && old(gens.opGen) <= gens.opGen
      ensures source.Untouched(old(source.index.contents), old(source.index.completeFlag))
      ensures Emitted(old(signals), viewGen, opGen, answer)
      ensures answer == None <==> IsStale(viewGen, opGen)
      ensures answer.Some? && old(Covered(query, pageSize)) ==> ServedWell(answer.value, query, pageSize)
      ensures answer.Some? && quiet && NeverFires(cancel) && Askable(query, pageSize) && pageSize > 0 ==>
        source.Outcome(answer.value, Target(query, pageSize), pageSize)
      ensures answer.Some? && answer.value.PageOk? ==>
        Askable(query, pageSize) && source.PageAnswers(answer.value.page, Target(query, pageSize), pageSize)
      ensures answer.Some? && BeyondOffsets(query, pageSize) ==> Refused(answer.value)
      ensures answer == Some(PageError(NotIndexedYet)) ==>
        pageSize > 0 && !old(source.index.IsComplete()) && Target(query, pageSize) >= |source.index.contents|
    {
      hide CsvFileSource.Valid, CsvFileSource.PageShows, CsvFileSource.PageAnswers, CsvFileSource.Total;
      hide CsvFileSource.Outcome, CsvFileSource.Undisturbed, Askable, ServedWell;
      quiet := true;
      if IsStale(viewGen, opGen) {
        return None, quiet;
      }
      CountedRows();
      var result;
      result, quiet := AnswerWithRetry(viewGen, opGen, query, pageSize, cancel);
      if old(Covered(query, pageSize)) {
        CoveredIsServed(result, query, pageSize, old(source.index.IsComplete()));
      }
      answer := SendPage(viewGen, opGen, result);
    }

    /** A result nobody waits for any more is not sent. */
    method SendPage(viewGen: nat, opGen: nat, result: PageResult) returns (answer: Option<PageResult>)
      modifies gens, `signals
      ensures old(gens.viewGen) <= gens.viewGen && old(gens.opGen) <= gens.opGen
      ensures answer == (if IsStale(viewGen, opGen) then None else Some(result))
      ensures Emitted(old(signals), viewGen, opGen, answer)
    {
      gens.Interleave();
      if IsStale(viewGen, opGen) {
        return None;
      }
      signals := signals + [PageReady(viewGen, opGen, result)];
      return Some(result);
    }

    /** Answering at once leaves nothing parked, so the queued slices still suffice. */
    lemma StaysAlive(before: nat)
      requires SourceValid() && parked == None && before <= gens.viewGen
      requires openView.Some? ==> openView.value <= before && source != null && source.IsOpen()
      requires statStopped ==> openView.Some? && openView.value !in slices
      requires source != null && openView == Some(before) && source.IsOpen() && !source.Latched() ==>
        source.index.completeFlag || before in slices || statStopped
      ensures Valid()
    {
      hide CsvFileSource.Valid;
    }

    /** Common to the four page slots: park the request while its range is not indexed yet,
        otherwise answer it. */
    method ServeOrPark(viewGen: nat, opGen: nat, query: Query, pageSize: int, cancel: CancelCheck)
      returns (answer: Option<PageResult>, ghost quiet: bool)
      requires Valid() && source != null && !IsStale(viewGen, opGen)
      modifies gens, source.index, source`sourceChanged, `signals, `parked
      ensures Valid() && Emitted(old(signals), viewGen, opGen, answer)
      ensures source.Untouched(old(source.index.contents), old(source.index.completeFlag))
      ensures source.Keeps(old(source.Failures()))
      ensures old(gens.viewGen) <= gens.viewGen && old(gens.opGen) <= gens.opGen
      ensures answer.Some? ==> gens.viewGen == viewGen && gens.opGen == opGen
      ensures answer.Some? ==> Faithful(answer.value, query, pageSize, old(Covered(query, pageSize)), quiet, cancel)
      ensures answer.Some? && !old(source.Latched()) ==> ServedWell(answer.value, query, pageSize)
      ensures if old(source.Readiness(Target(query, pageSize), pageSize)) == Pending
        then
          && answer == None
          && parked == Some(PendingPageRequest(viewGen, opGen, Target(query, pageSize), pageSize, query))
        else parked == None && (answer == None ==> gens.viewGen != viewGen || gens.opGen != opGen)
    {
      hide CsvFileSource.Valid, CsvFileSource.IsOpen;
      var readyState := source.Readiness(Target(query, pageSize), pageSize);
      if readyState == Pending {
        parked := Some(PendingPageRequest(viewGen, opGen, Target(query, pageSize), pageSize, query));
        return None, true;
      }
      answer, quiet := AnswerNow(viewGen, opGen, query, pageSize, cancel);
    }

    method AnswerNow(viewGen: nat, opGen: nat, query: Query, pageSize: int, cancel: CancelCheck)
      returns (answer: Option<PageResult>, ghost quiet: bool)
      requires Valid() && source != null && !IsStale(viewGen, opGen)
      requires source.Readiness(Target(query, pageSize), pageSize) != Pending
      modifies gens, source.index, source`sourceChanged, `signals, `parked
      ensures Valid() && parked == None && Emitted(old(signals), viewGen, opGen, answer)
      ensures source.Untouched(old(source.index.contents), old(source.index.completeFlag))
      ensures source.Keeps(old(source.Failures()))
      ensures old(gens.viewGen) <= gens.viewGen && old(gens.opGen) <= gens.opGen
      ensures answer.Some? ==> gens.viewGen == viewGen && gens.opGen == opGen
      ensures answer.Some? ==> Faithful(answer.value, query, pageSize, old(Covered(query, pageSize)), quiet, cancel)
      ensures answer.Some? && !old(source.Latched()) ==> ServedWell(answer.value, query, pageSize)
      ensures answer == None ==> gens.viewGen != viewGen || gens.opGen != opGen
    {
      hide CsvFileSource.Valid, CsvFileSource.PageAnswers, CsvFileSource.Outcome, CsvFileSource.Undisturbed, Faithful;
      hide Askable, ServedWell;
      ghost var view := gens.viewGen;
      if pageSize > 0 && Target(query, pageSize) >= 0 {
        UnlatchedIsCovered(query, pageSize);
      }
      parked := None;
      answer, quiet := ExecutePageQuery(viewGen, opGen, query, pageSize, cancel);
      if answer.Some? && (pageSize <= 0 || Target(query, pageSize) < 0) {
        WrongIsServed(answer.value, query, pageSize);
      }
      if answer.Some? {
        AnswerIsFaithful(answer.value, query, pageSize, old(Covered(query, pageSize)), quiet, cancel);
      }
      StaysAlive(view);
    }

    /** Wrong parameters meet an error that says so. */
    lemma WrongIsServed(result: PageResult, query: Query, pageSize: int)
      requires source != null && (pageSize <= 0 || Target(query, pageSize) < 0)
      requires result.PageOk? ==> source.PageAnswers(result.page, Target(query, pageSize), pageSize)
      requires result == PageError(NotIndexedYet) ==> pageSize > 0 && Target(query, pageSize) >= |source.index.contents|
      ensures ServedWell(result, query, pageSize)
    {
    }

    /** A request that need not be parked is covered, unless its parameters are wrong or indexing
        has ended for good. */
    lemma UnlatchedIsCovered(query: Query, pageSize: int)
      requires source != null && source.Valid()
      requires pageSize > 0 && Target(query, pageSize) >= 0
      ensures source.Readiness(Target(query, pageSize), pageSize) != Pending && !source.Latched() ==>
        Covered(query, pageSize)
    {
      CountedRows();
    }

    /** The bytes a page is about. */
    ghost function FileOf(): (f: (seq<Byte>, Byte, nat))
      reads `source, source
    {
      if source == null then ([], 0, 0) else (source.file, source.delimiter, source.columnCount)
    }

    ghost predicate SameFile(f: (seq<Byte>, Byte, nat))
      reads `source, source
    {
      FileOf() == f
    }

    /** Indexing has ended for good on a failure. */
    ghost predicate Stopped()
      reads `source, source, if source != null then {source.index} else {}
    {
      source != null && source.Latched()
    }

    ghost function Failures(): (bool, bool, bool)
      reads `source, source, if source != null then {source.index} else {}
    {
      if source == null then (false, false, false) else source.Failures()
    }

    ghost predicate Keeps(before: (bool, bool, bool))
      reads `source, source, if source != null then {source.index} else {}
    {
      source != null ==> source.Keeps(before)
    }

    /** What the index holds. */
    ghost function Indexed(): (seq<Span>, bool)
      reads `source, source, if source != null then {source.index} else {}
    {
      if source == null then ([], false) else (source.index.contents, source.index.completeFlag)
    }

    /** How far the index covers a query. */
    ghost function Coverage(query: Query, pageSize: int): Readiness
      requires source != null
      reads this, source, source.index
    {
      if BeyondOffsets(query, pageSize) then Failed else source.Readiness(Target(query, pageSize), pageSize)
    }

    /** A current request is parked exactly while its range is pending; otherwise it is answered
        unless the UI has moved on. */
    ghost predicate RequestSettled(viewGen: nat, opGen: nat, query: Query, pageSize: int, readiness: Readiness,
                                   answer: Option<PageResult>)
      reads `parked, gens
    {
      if readiness == Pending then
        parked == Some(PendingPageRequest(viewGen, opGen, Target(query, pageSize), pageSize, query)) && answer == None
      else parked == None && (answer == None ==> gens.viewGen != viewGen || gens.opGen != opGen)
    }

    /** The first page. */
    method First(viewGen: nat, opGen: nat, pageSize: int, cancel: CancelCheck)
      returns (answer: Option<PageResult>, ghost quiet: bool)
      requires Valid()
      modifies gens, if source != null then {source, source.index} else {}, `signals, `parked
      ensures Valid() && Emitted(old(signals), viewGen, opGen, answer)
      ensures SameSource(old(source), old(Scanner())) && SameFile(old(FileOf())) && Indexed() == old(Indexed())
      ensures Keeps(old(Failures()))
      ensures old(gens.viewGen) <= gens.viewGen && old(gens.opGen) <= gens.opGen
      ensures answer.Some? ==> gens.viewGen == viewGen && gens.opGen == opGen
      ensures old(IsStale(viewGen, opGen) || source == null) ==> answer == None && parked == old(parked)
      ensures answer.Some? ==>
        Faithful(answer.value, FirstPage, pageSize, old(source != null && Covered(FirstPage, pageSize)), quiet, cancel)
      ensures answer.Some? && !old(source.Latched()) ==> ServedWell(answer.value, FirstPage, pageSize)
      ensures !old(IsStale(viewGen, opGen) || source == null) ==>
        RequestSettled(viewGen, opGen, FirstPage, pageSize, old(Coverage(FirstPage, pageSize)), answer)
    {
      if IsStale(viewGen, opGen) || source == null {
        return None, true;
      }
      answer, quiet := ServeOrPark(viewGen, opGen, FirstPage, pageSize, cancel);
    }

    /** A target beyond the range of offsets is answered at once, with an error. */
    method Refuse(viewGen: nat, opGen: nat, query: Query, pageSize: int, cancel: CancelCheck)
      returns (answer: Option<PageResult>, ghost quiet: bool)
      requires Valid() && source != null && !IsStale(viewGen, opGen)
      requires BeyondOffsets(query, pageSize)
      modifies gens, source.index, source`sourceChanged, `signals, `parked
      ensures Valid() && parked == None && Emitted(old(signals), viewGen, opGen, answer)
      ensures source.Untouched(old(source.index.contents), old(source.index.completeFlag))
      ensures source.Keeps(old(source.Failures()))
      ensures old(gens.viewGen) <= gens.viewGen && old(gens.opGen) <= gens.opGen
      ensures answer.Some? ==> gens.viewGen == viewGen && gens.opGen == opGen
      ensures answer.Some? ==> Refused(answer.value)
      ensures answer == None ==> gens.viewGen != viewGen || gens.opGen != opGen
    {
      hide CsvFileSource.Valid;
      ghost var view := gens.viewGen;
      parked := None;
      answer, quiet := ExecutePageQuery(viewGen, opGen, query, pageSize, cancel);
      StaysAlive(view);
    }

    /** The page after the one of `token`. */
    method Next(viewGen: nat, opGen: nat, token: PageToken, pageSize: int, cancel: CancelCheck)
      returns (answer: Option<PageResult>, ghost quiet: bool)
      requires Valid()
      modifies gens, if source != null then {source, source.index} else {}, `signals, `parked
      ensures Valid() && Emitted(old(signals), viewGen, opGen, answer)
      ensures SameSource(old(source), old(Scanner())) && SameFile(old(FileOf())) && Indexed() == old(Indexed())
      ensures Keeps(old(Failures()))
      ensures old(gens.viewGen) <= gens.viewGen && old(gens.opGen) <= gens.opGen
      ensures answer.Some? ==> gens.viewGen == viewGen && gens.opGen == opGen
      ensures old(IsStale(viewGen, opGen) || source == null) ==> answer == None && parked == old(parked)
      ensures answer.Some? ==>
        Faithful(answer.value, NextPage(token), pageSize, old(source != null && Covered(NextPage(token), pageSize)),
            quiet, cancel)
      ensures answer.Some? && !old(source.Latched()) ==> ServedWell(answer.value, NextPage(token), pageSize)
      ensures !old(IsStale(viewGen, opGen) || source == null) ==>
        RequestSettled(viewGen, opGen, NextPage(token), pageSize, old(Coverage(NextPage(token), pageSize)), answer)
    {
      if IsStale(viewGen, opGen) || source == null {
        return None, true;
      }
      if pageSize <= 0 || token.offset > INT64_MAX - pageSize {
        answer, quiet := Refuse(viewGen, opGen, NextPage(token), pageSize, cancel);
        return;
      }
      answer, quiet := ServeOrPark(viewGen, opGen, NextPage(token), pageSize, cancel);
    }

    /** The page before the one of `token`. */
    method Prev(viewGen: nat, opGen: nat, token: PageToken, pageSize: int, cancel: CancelCheck)
      returns (answer: Option<PageResult>, ghost quiet: bool)
      requires Valid()
      modifies gens, if source != null then {source, source.index} else {}, `signals, `parked
      ensures Valid() && Emitted(old(signals), viewGen, opGen, answer)
      ensures SameSource(old(source), old(Scanner())) && SameFile(old(FileOf())) && Indexed() == old(Indexed())
      ensures Keeps(old(Failures()))
      ensures old(gens.viewGen) <= gens.viewGen && old(gens.opGen) <= gens.opGen
      ensures answer.Some? ==> gens.viewGen == viewGen && gens.opGen == opGen
      ensures old(IsStale(viewGen, opGen) || source == null) ==> answer == None && parked == old(parked)
      ensures answer.Some? ==>
        Faithful(answer.value, PrevPage(token), pageSize, old(source != null && Covered(PrevPage(token), pageSize)),
            quiet, cancel)
      ensures answer.Some? && !old(source.Latched()) ==> ServedWell(answer.value, PrevPage(token), pageSize)
      ensures !old(IsStale(viewGen, opGen) || source == null) ==>
        RequestSettled(viewGen, opGen, PrevPage(token), pageSize, old(Coverage(PrevPage(token), pageSize)), answer)
    {
      if IsStale(viewGen, opGen) || source == null {
        return None, true;
      }
      answer, quiet := ServeOrPark(viewGen, opGen, PrevPage(token), pageSize, cancel);
    }

    /** The last page of `knownTotal` rows. */
    method Last(viewGen: nat, opGen: nat, pageSize: int, knownTotal: int, cancel: CancelCheck)
      returns (answer: Option<PageResult>, ghost quiet: bool)
      requires Valid()
      modifies gens, if source != null then {source, source.index} else {}, `signals, `parked
      ensures Valid() && Emitted(old(signals), viewGen, opGen, answer)
      ensures SameSource(old(source), old(Scanner())) && SameFile(old(FileOf())) && Indexed() == old(Indexed())
      ensures Keeps(old(Failures()))
      ensures old(gens.viewGen) <= gens.viewGen && old(gens.opGen) <= gens.opGen
      ensures answer.Some? ==> gens.viewGen == viewGen && gens.opGen == opGen
      ensures old(IsStale(viewGen, opGen) || source == null) ==> answer == None && parked == old(parked)
      ensures answer.Some? ==>
        Faithful(answer.value, LastPage(knownTotal), pageSize,
            old(source != null && Covered(LastPage(knownTotal), pageSize)), quiet, cancel)
      ensures answer.Some? && !old(source.Latched()) ==> ServedWell(answer.value, LastPage(knownTotal), pageSize)
      ensures !old(IsStale(viewGen, opGen) || source == null) ==>
        RequestSettled(viewGen, opGen, LastPage(knownTotal), pageSize,
            old(Coverage(LastPage(knownTotal), pageSize)), answer)
    {
      if IsStale(viewGen, opGen) || source == null {
        return None, true;
      }
      answer, quiet := ServeOrPark(viewGen, opGen, LastPage(knownTotal), pageSize, cancel);
    }

    /** The slot of a query. */
    method Request(viewGen: nat, opGen: nat, query: Query, pageSize: int, cancel: CancelCheck)
      returns (answer: Option<PageResult>, ghost quiet: bool)
      requires Valid()
      modifies gens, if source != null then {source, source.index} else {}, `signals, `parked
      ensures Valid() && Emitted(old(signals), viewGen, opGen, answer)
      ensures SameSource(old(source), old(Scanner())) && SameFile(old(FileOf())) && Indexed() == old(Indexed())
      ensures Keeps(old(Failures()))
      ensures old(gens.viewGen) <= gens.viewGen && old(gens.opGen) <= gens.opGen
      ensures answer.Some? ==> gens.viewGen == viewGen && gens.opGen == opGen
      ensures old(IsStale(viewGen, opGen) || source == null) ==> answer == None && parked == old(parked)
      ensures answer.Some? ==>
        Faithful(answer.value, query, pageSize, old(source != null && Covered(query, pageSize)), quiet, cancel)
      ensures answer.Some? && !old(source.Latched()) ==> ServedWell(answer.value, query, pageSize)
      ensures !old(IsStale(viewGen, opGen) || source == null) ==>
        RequestSettled(viewGen, opGen, query, pageSize, old(Coverage(query, pageSize)), answer)
    {
      hide Valid, Faithful, ServedWell, Covered, FileOf;
      match query
      case FirstPage => answer, quiet := First(viewGen, opGen, pageSize, cancel);
      case NextPage(token) => answer, quiet := Next(viewGen, opGen, token, pageSize, cancel);
      case PrevPage(token) => answer, quiet := Prev(viewGen, opGen, token, pageSize, cancel);
      case LastPage(total) => answer, quiet := Last(viewGen, opGen, pageSize, total, cancel);
    }

    // ---- Index slices ----------------------------------------------------------------------

    /** Between its slice and its end the view has no slice queued; everything else is intact. */
    ghost predicate MidSlice(viewGen: nat)
      reads this, gens, source, if source != null then {source.index, source.indexScanner} else {}
    {
      && SourceValid() && source != null && viewGen <= gens.viewGen
      && (openView.Some? ==> openView.value <= viewGen && source.IsOpen())
      && (parked.Some? ==> parked.value.viewGen <= viewGen && parked.value.opGen <= gens.opGen)
      && (parked.Some? ==> WellParked(parked.value))
      && (statStopped ==> openView.Some? && openView.value !in slices && openView.value != viewGen)
    }

    /** Runs the next queued slice.  Its signals are at most one progress report and, behind it, at
        most one page: the answer to the parked request.  While a current request stays parked, the
        scan has moved on by at least a byte and the next slice is queued. */
    method IndexSlice(cancel: CancelCheck, stat: StatOutcome, io: bool)
      returns (answer: Option<PageResult>, ghost quiet: bool, tick: Option<Signal>)
      requires Valid() && slices != []
      modifies this, gens, source, if source != null then {source.index, source.indexScanner} else {}
      ensures Valid() && SameSource(old(source), old(Scanner())) && SameFile(old(FileOf())) && openView == old(openView)
      ensures Keeps(old(Failures()))
      ensures old(gens.viewGen) <= gens.viewGen && old(gens.opGen) <= gens.opGen
      ensures SlicedAnswer(old(parked), answer) && Sent(old(signals), old(parked), tick, answer)
      ensures tick.Some? ==> old(slices)[0] == old(gens.viewGen) && TickFits(tick.value, old(slices)[0])
      ensures answer.Some? && old(Indexing()) ==>
        ServedIfUndisturbed(answer.value, old(parked).value.query, old(parked).value.pageSize, quiet, cancel)
      ensures old(slices)[0] != old(gens.viewGen) ==>
        parked == old(parked) && answer == None && statStopped == old(statStopped)
      ensures ParkedIsCurrent() && old(slices)[0] == gens.viewGen ==>
        gens.viewGen in slices && Remaining() < old(Remaining())
      ensures ParkedIsCurrent() ==> statStopped == old(statStopped)
      ensures Remaining() <= old(Remaining())
      ensures slices == old(slices)[1..] ||
        (slices == old(slices)[1..] + [old(slices)[0]] && Remaining() < old(Remaining()))
      ensures old(Indexing()) && old(slices)[0] == gens.viewGen && stat == StatFailure ==>
        && source.Untouched(old(source.index.contents), old(source.index.completeFlag)) && !source.Latched()
        && parked == None && slices == old(slices)[1..]
      ensures old(Indexing()) && old(slices)[0] == gens.viewGen && stat == StatSame && !io ==>
        && source.Untouched(old(source.index.contents), old(source.index.completeFlag)) && source.BrokenOff()
        && parked == None && slices == old(slices)[1..]
    {
      hide CsvFileSource.Valid, CsvFileSource.IsOpen;
      OpenHasScanner();
      var viewGen := slices[0];
      slices := slices[1..];
      answer, quiet, tick := None, true, None;
      if IsViewStale(viewGen) || source == null {
        return;
      }
      answer, quiet, tick := RunSlice(viewGen, cancel, stat, io);
    }

    /** Behind an open the scan is complete or has a scanner to go on with. */
    lemma OpenHasScanner()
      ensures source != null && source.IsOpen() && source.indexScanner == null ==> source.index.completeFlag
    {
    }

    /** What a slice makes of the parked request: it stays, it is answered, or it had become stale. */
    ghost predicate SlicedAnswer(before: Option<PendingPageRequest>, answer: Option<PageResult>)
      reads this, gens, source, if source != null then {source.index} else {}
    {
      && (parked == None || parked == before)
      && (answer.Some? ==> before.Some? && parked == None && WokenWell(answer.value, before.value))
      && (before.Some? && parked == None ==>
           (answer == None <==> gens.viewGen != before.value.viewGen || gens.opGen != before.value.opGen))
    }

    /** Exactly the signals sent: a progress report, then the answer to the parked request. */
    ghost predicate Sent(before: seq<Signal>, request: Option<PendingPageRequest>, tick: Option<Signal>,
                         answer: Option<PageResult>)
      reads `signals
    {
      && (answer.Some? ==> request.Some?)
      && signals == before + (if tick.Some? then [tick.value] else [])
           + (if answer.Some? then [PageReady(request.value.viewGen, request.value.opGen, answer.value)] else [])
    }

    /** A progress report of a view; completion comes with the exact number of data records. */
    ghost predicate TickFits(tick: Signal, viewGen: nat)
      reads `source, source
    {
      && tick.IndexProgressed? && tick.viewGen == viewGen
      && (tick.isComplete ==> !tick.failed && source != null && tick.rows == source.Total())
    }

    ghost function Scanner(): CsvRecordScanner?
      reads `source, source
    {
      if source == null then null else source.indexScanner
    }

    ghost predicate SameSource(s: CsvFileSource?, scanner: CsvRecordScanner?)
      reads `source, source
    {
      source == s && Scanner() == scanner
    }

    /** A slice of the current view. */
    method RunSlice(viewGen: nat, cancel: CancelCheck, stat: StatOutcome, io: bool)
      returns (answer: Option<PageResult>, ghost quiet: bool, tick: Option<Signal>)
      requires MidSlice(viewGen) && viewGen == gens.viewGen
      modifies gens, source, source.index, source.indexScanner, `signals, `parked, `slices, `statStopped
      ensures Valid() && SameSource(old(source), old(Scanner())) && SameFile(old(FileOf()))
      ensures source.Keeps(old(source.Failures()))
      ensures old(gens.viewGen) <= gens.viewGen && old(gens.opGen) <= gens.opGen
      ensures SlicedAnswer(old(parked), answer) && Sent(old(signals), old(parked), tick, answer)
      ensures tick.Some? ==> TickFits(tick.value, viewGen)
      ensures answer.Some? && old(!source.scanFailed && source.HasScanner()) ==>
        ServedIfUndisturbed(answer.value, old(parked).value.query, old(parked).value.pageSize, quiet, cancel)
      ensures ParkedIsCurrent() && viewGen == gens.viewGen ==> gens.viewGen in slices && Remaining() < old(Remaining())
      ensures ParkedIsCurrent() ==> statStopped == old(statStopped)
      ensures Remaining() <= old(Remaining())
      ensures slices == old(slices) || (slices == old(slices) + [viewGen] && Remaining() < old(Remaining()))
      ensures old(source.CanGrow()) && viewGen == gens.viewGen && stat == StatFailure ==>
        && source.Untouched(old(source.index.contents), old(source.index.completeFlag)) && !source.Latched()
        && parked == None && slices == old(slices)
      ensures old(source.CanGrow()) && viewGen == gens.viewGen && stat == StatSame && !io ==>
        && source.Untouched(old(source.index.contents), old(source.index.completeFlag)) && source.BrokenOff()
        && parked == None && slices == old(slices)
    {
      hide SourceWorker.Valid, CsvFileSource.Valid, CsvFileSource.IsOpen, WokenWell, Askable, CsvFileSource.Outcome;
      var progress := ScanOn(viewGen, cancel, stat, io);
      quiet := io && stat != StatFailure;
      if IsViewStale(viewGen) {
        LeftIsValid(viewGen);
        return None, quiet, None;
      }
      ghost var still;
      answer, still, tick := FinishSlice(viewGen, progress, cancel);
      quiet := quiet && still;
    }

    /** The scan of a slice, while the UI thread goes on. */
    method ScanOn(viewGen: nat, cancel: CancelCheck, stat: StatOutcome, io: bool) returns (progress: IndexProgress)
      requires MidSlice(viewGen) && viewGen == gens.viewGen
      modifies gens, source, source.index, source.indexScanner
      ensures MidSlice(viewGen) && SameSource(old(source), old(Scanner())) && SameFile(old(FileOf()))
      ensures source.Keeps(old(source.Failures()))
      ensures old(gens.viewGen) <= gens.viewGen && old(gens.opGen) <= gens.opGen
      ensures Remaining() <= old(Remaining())
      ensures progress.error == None && !progress.isComplete ==> Remaining() < old(Remaining())
      ensures progress.error == None ==> !source.Latched() && progress.isComplete == source.index.IsComplete()
      ensures progress.isComplete ==> progress.indexedRows == source.Total()
      ensures progress.error.Some? ==>
        !progress.isComplete && source.Final(progress.error.value) && progress.error.value != NotIndexedYet
      ensures stat != StatFailure && source.Undisturbed(io, cancel) ==>
        old(!source.scanFailed && source.HasScanner()) ==> progress.error == None
      ensures old(source.CanGrow()) && stat == StatFailure ==>
        && source.Untouched(old(source.index.contents), old(source.index.completeFlag)) && !source.Latched()
        && progress.error.Some?
      ensures old(source.CanGrow()) && stat == StatSame && !io ==>
        && source.Untouched(old(source.index.contents), old(source.index.completeFlag)) && source.BrokenOff()
        && progress.error.Some?
    {
      hide CsvFileSource.Valid, CsvFileSource.IsOpen, CsvFileSource.Total;
      progress := source.AdvanceIndex(SLICE_BYTES, cancel, stat, io);
      gens.Interleave();
    }

    /** A slice of a view that the user has left ends in good order. */
    lemma LeftIsValid(viewGen: nat)
      requires MidSlice(viewGen) && gens.viewGen > viewGen
      ensures Valid()
    {
      hide CsvFileSource.Valid, CsvFileSource.IsOpen;
    }

    /** The bytes still to be indexed. */
    ghost function Remaining(): nat
      reads this, source
    {
      if source == null || source.scanOffset > |source.file| then 0 else |source.file| - source.scanOffset
    }

    /** The part of a slice behind the scan: progress, the parked request, and the next slice, which
        is queued exactly if there is no error, no completion and the view is still current. */
    method FinishSlice(viewGen: nat, progress: IndexProgress, cancel: CancelCheck)
      returns (answer: Option<PageResult>, ghost quiet: bool, tick: Option<Signal>)
      requires MidSlice(viewGen) && viewGen == gens.viewGen
      requires progress.error.Some? ==>
        !progress.isComplete && source.Final(progress.error.value) && progress.error.value != NotIndexedYet
      requires progress.error == None ==> !source.Latched() && progress.isComplete == source.index.IsComplete()
      requires progress.isComplete ==> progress.indexedRows == source.Total()
      modifies gens, source.index, source`sourceChanged, `signals, `parked, `slices, `statStopped
      ensures Valid() && old(gens.viewGen) <= gens.viewGen && old(gens.opGen) <= gens.opGen
      ensures source.Keeps(old(source.Failures()))
      ensures SlicedAnswer(old(parked), answer) && Sent(old(signals), old(parked), tick, answer)
      ensures tick.Some? ==> TickFits(tick.value, viewGen)
      ensures progress.isComplete || progress.error.Some? ==> tick.Some?
      ensures answer.Some? && progress.error == None ==>
        ServedIfUndisturbed(answer.value, old(parked).value.query, old(parked).value.pageSize, quiet, cancel)
      ensures progress.error.Some? ==>
        source.sourceChanged == old(source.sourceChanged) && source.index.failed == old(source.index.failed)
      ensures progress.error.Some? ==> parked == None
      ensures source.Untouched(old(source.index.contents), old(source.index.completeFlag))
      ensures ParkedIsCurrent() ==> gens.viewGen in slices && progress.error == None && !progress.isComplete
      ensures parked.Some? ==> statStopped == old(statStopped)
      ensures slices == old(slices)
          + if progress.error == None && !progress.isComplete && gens.viewGen == viewGen then [viewGen] else []
    {
      hide CsvFileSource.Valid, CsvFileSource.IsOpen, WokenWell, ServedIfUndisturbed, CsvFileSource.Total;
      tick := Report(viewGen, progress);
      answer, quiet := Wake(progress, viewGen, cancel);
      OpenHasScanner();
      if progress.error == Some(StatFailed) && openView == Some(viewGen) && viewGen !in slices {
        statStopped := true;
      }
      if !progress.isComplete && progress.error == None && !IsViewStale(viewGen) {
        slices := slices + [viewGen];
      }
    }

    /** Completion and errors are always reported, other progress only now and then. */
    method Report(viewGen: nat, progress: IndexProgress) returns (tick: Option<Signal>)
      modifies `signals
      ensures signals == old(signals) + if tick.Some? then [tick.value] else []
      ensures tick.Some? ==>
        tick.value == IndexProgressed(viewGen, progress.indexedRows, progress.isComplete, progress.error.Some?)
      ensures progress.isComplete || progress.error.Some? ==> tick.Some?
    {
      var due: bool := *;
      tick := None;
      if progress.isComplete || progress.error.Some? || due {
        tick := Some(IndexProgressed(viewGen, progress.indexedRows, progress.isComplete, progress.error.Some?));
        signals := signals + [tick.value];
      }
    }

    /** A woken request gets its exact page, or an error that ends it; never "not indexed yet". */
    ghost predicate WokenWell(result: PageResult, request: PendingPageRequest)
      reads `source, source
    {
      source != null && ServedWell(result, request.query, request.pageSize)
    }

    /** The parked request after a slice: dropped if stale, rejected on an error, answered once its
        range is no longer pending. */
    method Wake(progress: IndexProgress, viewGen: nat, cancel: CancelCheck)
      returns (answer: Option<PageResult>, ghost quiet: bool)
      requires MidSlice(viewGen) && (progress.error.Some? ==> progress.error.value != NotIndexedYet)
      requires progress.error == None ==> !source.Latched() && progress.isComplete == source.index.IsComplete()
      modifies gens, source.index, source`sourceChanged, `signals, `parked
      ensures MidSlice(viewGen) && old(gens.viewGen) <= gens.viewGen && old(gens.opGen) <= gens.opGen
      ensures source.Keeps(old(source.Failures()))
      ensures source.Untouched(old(source.index.contents), old(source.index.completeFlag))
      ensures parked == None || parked == old(parked)
      ensures parked.Some? ==>
        answer == None && progress.error == None && !progress.isComplete && signals == old(signals)
      ensures answer.Some? ==> old(parked).Some? && parked == None && WokenWell(answer.value, old(parked).value)
      ensures answer.Some? ==> Emitted(old(signals), old(parked).value.viewGen, old(parked).value.opGen, answer)
      ensures answer == None ==> signals == old(signals)
      ensures answer.Some? && progress.error == None ==>
        ServedIfUndisturbed(answer.value, old(parked).value.query, old(parked).value.pageSize, quiet, cancel)
      ensures progress.error.Some? ==>
        source.sourceChanged == old(source.sourceChanged) && source.index.failed == old(source.index.failed)
      ensures old(parked).Some? && parked == None ==>
        (answer == None <==> gens.viewGen != old(parked).value.viewGen || gens.opGen != old(parked).value.opGen)
      ensures progress.error.Some? ==> parked == None
    {
      hide CsvFileSource.Valid;
      answer, quiet := None, true;
      if parked == None {
        return;
      }
      var req := parked.value;
      CountedRows();
      if IsStale(req.viewGen, req.opGen) {
        parked := None;
      } else if progress.error.Some? {
        parked := None;
        answer := Some(PageError(progress.error.value));
        signals := signals + [PageReady(req.viewGen, req.opGen, answer.value)];
      } else {
        var readyState := source.Readiness(req.firstOrdinal, req.pageSize);
        if readyState != Pending {
          parked := None;
          answer, quiet := ExecutePageQuery(req.viewGen, req.opGen, req.query, req.pageSize, cancel);
          CountedRows();
        }
      }
    }

    // ---- The end of indexing ---------------------------------------------------------------

    /** The answers among the signals. */
    static function PagesIn(s: seq<Signal>): seq<Signal> {
      if s == [] then [] else PagesIn(s[..|s| - 1]) + if s[|s| - 1].PageReady? then [s[|s| - 1]] else []
    }

    static lemma {:induction false} PagesInAppend(a: seq<Signal>, b: seq<Signal>)
      ensures PagesIn(a + b) == PagesIn(a) + PagesIn(b)
      decreases |b|
    {
      if b == [] {
        assert a + b == a;
      } else {
        PagesInAppend(a, b[..|b| - 1]);
        assert (a + b)[..|a + b| - 1] == a + b[..|b| - 1];
      }
    }

    lemma PagesSent(before: seq<Signal>, request: Option<PendingPageRequest>, tick: Option<Signal>,
                    answer: Option<PageResult>)
      requires Sent(before, request, tick, answer) && (tick.Some? ==> tick.value.IndexProgressed?)
      ensures PagesIn(signals) == PagesIn(before) +
        if answer.Some? then [PageReady(request.value.viewGen, request.value.opGen, answer.value)] else []
    {
      hide PagesIn, ServedWell;
      var page := if answer.Some? then Some(PageReady(request.value.viewGen, request.value.opGen, answer.value))
          else None;
      PagesInAppend(before + Listed(tick), Listed(page));
      PagesInAppend(before, Listed(tick));
      PagesInListed(tick);
      PagesInListed(page);
    }

    static function Listed(signal: Option<Signal>): seq<Signal> {
      if signal.Some? then [signal.value] else []
    }

    static lemma PagesInListed(signal: Option<Signal>)
      ensures PagesIn(Listed(signal)) == if signal.Some? && signal.value.PageReady? then Listed(signal) else []
    {
      if signal.Some? {
        assert [signal.value][..0] == [];
      }
    }

    /** A request that is still the newest one of the view being indexed. */
    ghost predicate IsCurrent(r: PendingPageRequest)
      reads `openView, gens
    {
      r.viewGen == gens.viewGen && r.opGen == gens.opGen && openView == Some(gens.viewGen)
    }

    /** A current parked request waits for a slice of its view, unless a failed stat has ended them. */
    lemma ParkedHasSlice()
      requires Valid()
      ensures ParkedIsCurrent() ==> (gens.viewGen in slices <==> !statStopped)
    {
      hide CsvFileSource.Valid, CsvFileSource.IsOpen;
    }

    /** Running all queued slices ends.  A request that was parked and is still current has then been
        answered exactly once, if a slice of its view was queued; it is parked for good, without an
        answer, just if none was, which takes a failed stat. */
    method Drain(cancel: CancelCheck) returns (ghost answer: Option<PageResult>)
      requires Valid()
      modifies this, gens, source, if source != null then {source.index, source.indexScanner} else {}
      ensures Valid() && slices == [] && openView == old(openView) && SameSource(old(source), old(Scanner()))
      ensures SameFile(old(FileOf()))
      ensures old(gens.viewGen) <= gens.viewGen && old(gens.opGen) <= gens.opGen
      ensures answer.Some? ==> old(parked).Some? && parked == None && WokenWell(answer.value, old(parked).value)
      ensures old(signals) <= signals && (parked == None || parked == old(parked))
      ensures PagesIn(signals) == PagesIn(old(signals)) +
        if answer.Some? then [PageReady(old(parked).value.viewGen, old(parked).value.opGen, answer.value)] else []
      ensures old(ParkedIsCurrent()) && IsCurrent(old(parked).value) ==>
        if old(gens.viewGen in slices) then answer.Some? && parked == None else answer == None && parked == old(parked)
      ensures old(ParkedIsCurrent()) ==> (old(gens.viewGen in slices) <==> !old(statStopped))
    {
      hide SourceWorker.Valid, CsvFileSource.Valid, ServedWell, PagesIn;
      ParkedHasSlice();
      ghost var file, request, stopped := FileOf(), parked, statStopped;
      answer := None;
      while slices != []
        invariant Valid() && SameFile(file) && SameSource(old(source), old(Scanner())) && openView == old(openView)
        invariant old(gens.viewGen) <= gens.viewGen && old(gens.opGen) <= gens.opGen
        invariant parked == None || parked == request
        invariant answer.Some? ==> request.Some? && parked == None && WokenWell(answer.value, request.value)
        invariant old(signals) <= signals
        invariant PagesIn(signals) == PagesIn(old(signals)) +
          if answer.Some? then [PageReady(request.value.viewGen, request.value.opGen, answer.value)] else []
        invariant old(ParkedIsCurrent()) && IsCurrent(request.value) ==>
          (answer.Some? <==> parked == None) && (parked.Some? ==> statStopped == stopped) && (stopped ==> parked.Some?)
        decreases Remaining(), |slices|
      {
        var stat: StatOutcome, io: bool := *, *;
        ghost var before := signals;
        ParkedHasSlice();
        var woken, _, tick := IndexSlice(cancel, stat, io);
        ParkedHasSlice();
        PagesSent(before, request, tick, woken);
        answer := if woken.Some? then woken else answer;
      }
      ParkedHasSlice();
    }

    // ---- Copying ---------------------------------------------------------------------------

    /** A row that was read carries the full values of the record its key names. */
    ghost predicate RefetchFits(key: RefetchKey, result: RefetchResult)
      requires source != null
      reads `source, source`file, source`delimiter, source`columnCount
    {
      result.RefetchOk? ==>
        && key.ordinal.Some? && 0 <= key.ordinal.value < source.Total()
        && result.columns == TargetColumns(key.selectedColumns, source.columnCount)
        && result.values == ValuesAt(source.Row(key.ordinal.value).fields, result.columns)
    }

    ghost predicate BatchFits(keys: seq<(int, RefetchKey)>, results: seq<(int, RefetchResult)>)
      requires source != null
      reads `source, source`file, source`delimiter, source`columnCount
    {
      |results| <= |keys| && forall k | 0 <= k < |results| ::
          results[k].0 == keys[k].0 && RefetchFits(keys[k].1, results[k].1)
    }

    /** What a key is answered with when nothing interferes: the full values of its record, unless they alone
        exceed the budget. */
    ghost function Served(key: RefetchKey): RefetchResult
      requires source != null
      reads `source, source`file, source`delimiter, source`columnCount, source.index`contents
    {
      if key.ordinal == None then RefetchError(MissingOrdinal)
      else
        var i := key.ordinal.value;
        if i < 0 || i >= |source.index.contents| || i >= source.Total() then RefetchError(OrdinalOutOfRange)
        else if source.Oversized(i, key.selectedColumns) then RefetchError(CopyBudgetExceeded)
        else
          var columns := TargetColumns(key.selectedColumns, source.columnCount);
          RefetchOk(columns, ValuesAt(source.Row(i).fields, columns))
    }

    ghost function ServedBatch(keys: seq<(int, RefetchKey)>): (batch: seq<(int, RefetchResult)>)
      requires source != null
      reads `source, source`file, source`delimiter, source`columnCount, source.index`contents
      ensures |batch| == |keys| && forall k | 0 <= k < |keys| :: batch[k].0 == keys[k].0
    {
      if keys == [] then []
      else
        var last := keys[|keys| - 1];
        ServedBatch(keys[..|keys| - 1]) + [(last.0, Served(last.1))]
    }

    lemma ServedNext(keys: seq<(int, RefetchKey)>, i: nat)
      requires source != null && i < |keys|
      ensures ServedBatch(keys[..i + 1]) == ServedBatch(keys[..i]) + [(keys[i].0, Served(keys[i].1))]
      ensures BatchBytes(ServedBatch(keys[..i + 1])) == BatchBytes(ServedBatch(keys[..i])) +
        if Served(keys[i].1).RefetchOk? then RowBytes(Served(keys[i].1).values) else 0
    {
      hide Served, RowBytes;
      assert keys[..i + 1][..i] == keys[..i];
      var batch, entry := ServedBatch(keys[..i]), (keys[i].0, Served(keys[i].1));
      assert (batch + [entry])[..|batch|] == batch;
    }

    /** One row, repeated once if it was cancelled although the view is current. */
    lemma RefusalFits(key: RefetchKey)
      requires source != null
      ensures RefetchFits(key, RefetchError(CopyBudgetExceeded))
    {
    }

    lemma NothingRead(keys: seq<(int, RefetchKey)>)
      requires source != null
      ensures BatchFits(keys, []) && BatchBytes([]) == 0
    {
    }

    lemma BatchGrows(keys: seq<(int, RefetchKey)>, read: seq<(int, RefetchResult)>, entry: (int, RefetchResult))
      requires source != null && BatchFits(keys, read) && |read| < |keys|
      requires entry.0 == keys[|read|].0 && RefetchFits(keys[|read|].1, entry.1)
      ensures BatchFits(keys, read + [entry])
      ensures BatchBytes(read + [entry]) ==
        BatchBytes(read) + if entry.1.RefetchOk? then RowBytes(entry.1.values) else 0
    {
      hide RefetchFits, RowBytes;
      assert (read + [entry])[..|read|] == read;
    }

    /** All values of the batch, or none. */
    static ghost predicate BatchOutcome(read: seq<(int, RefetchResult)>, reply: seq<(int, RefetchResult)>) {
      if BatchBytes(read) > COPY_BUDGET then
        |reply| == |read| && AllRefused(reply) && forall k | 0 <= k < |read| :: reply[k].0 == read[k].0
      else reply == read
    }

    /** One reading of a row, by the contract of `CsvFileSource.Refetch`. */
    lemma ReadFits(key: RefetchKey, result: RefetchResult, undisturbed: bool)
      requires source != null && source.Valid()
      requires undisturbed ==>
        if key.ordinal.Some? && 0 <= key.ordinal.value < |source.index.contents| then
          result.RefetchOk? || result.error == CopyBudgetExceeded
        else result == RefetchError(if key.ordinal == None then MissingOrdinal else OrdinalOutOfRange)
      requires result.RefetchOk? ==>
        && key.ordinal.Some? && 0 <= key.ordinal.value < |source.index.contents|
        && key.ordinal.value < source.Total()
        && result.columns == TargetColumns(key.selectedColumns, source.columnCount)
        && result.values == ValuesAt(source.Row(key.ordinal.value).fields, result.columns)
        && RowBytes(result.values) <= COPY_BUDGET
      requires result == RefetchError(CopyBudgetExceeded) ==>
        && key.ordinal.Some? && 0 <= key.ordinal.value < source.Total()
        && source.Oversized(key.ordinal.value, key.selectedColumns)
      ensures RefetchFits(key, result) && (undisturbed ==> result == Served(key))
    {
      hide CsvFileSource.Valid, TargetColumns, RowBytes;
      CountedRows();
    }

    static lemma BatchDecided(read: seq<(int, RefetchResult)>, results: seq<(int, RefetchResult)>, exceeded: bool)
      requires |results| == |read| && forall k | 0 <= k < |read| :: results[k].0 == read[k].0
      requires exceeded == (BatchBytes(read) > COPY_BUDGET)
      requires if exceeded then AllRefused(results) else results == read
      ensures BatchOutcome(read, results)
    {
    }

    method RefetchWithRetry(viewGen: nat, key: RefetchKey, cancel: CancelCheck)
      returns (result: RefetchResult, ghost quiet: bool)
      requires Valid() && source != null
      modifies gens, source.index, source`sourceChanged
      ensures Valid() && RefetchFits(key, result)
      ensures source.Undisturbed(quiet, cancel) ==> result == Served(key)
      ensures source.Untouched(old(source.index.contents), old(source.index.completeFlag))
      ensures source.Keeps(old(source.Failures()))
    {
      hide CsvFileSource.Valid, CsvFileSource.IsOpen, TargetColumns, RowBytes, NeverFires, RefetchFits, Served;
      result, quiet := source.Refetch(key.ordinal, key.selectedColumns, cancel);
      ReadFits(key, result, source.Undisturbed(quiet, cancel));
      gens.Interleave();
      if result == RefetchError(SourceError.Cancelled) {
        var interrupted: bool := *;
        if !IsViewStale(viewGen) && !interrupted {
          result, quiet := source.Refetch(key.ordinal, key.selectedColumns, cancel);
          ReadFits(key, result, source.Undisturbed(quiet, cancel));
          gens.Interleave();
        }
      }
    }

    /** The full values of a copy's clamped cells, all or nothing: a batch over the budget is
        cleared as a whole.  A view that is given up on is answered with an empty batch, except
        when it becomes stale at the very end; then nothing is sent. */
    method RefetchRows(viewGen: nat, rowKeys: seq<(int, RefetchKey)>, cancel: CancelCheck)
      returns (reply: Option<seq<(int, RefetchResult)>>, ghost read: seq<(int, RefetchResult)>, ghost quiet: bool)
      requires Valid()
      modifies gens, if source != null then {source.index} else {}, if source != null then {source} else {}
      ensures Valid() && SameFile(old(FileOf()))
      ensures old(IsViewStale(viewGen)) || source == null ==> reply == Some([])
      ensures reply == None ==> IsViewStale(viewGen)
      ensures reply == Some([]) && rowKeys != [] ==> source == null || gens.viewGen != viewGen
      ensures reply.Some? && reply.value != [] ==> gens.viewGen == viewGen
      ensures reply.Some? && reply.value != [] ==>
        source != null && |read| == |rowKeys| && BatchFits(rowKeys, read) && BatchOutcome(read, reply.value)
      ensures reply.Some? && reply.value != [] && source.Undisturbed(quiet, cancel) ==>
        BatchOutcome(ServedBatch(rowKeys), reply.value)
    {
      hide Valid, CsvFileSource.Valid, RowBytes, RefetchFits, TargetColumns, BatchBytes, BatchFits, AllRefused;
      hide Served, ServedBatch, NeverFires, BatchOutcome;
      read, quiet := [], true;
      if IsViewStale(viewGen) || source == null {
        return Some([]), [], quiet;
      }
      var totalBatchBytes, budgetExceeded := 0, false;
      var results: seq<(int, RefetchResult)> := [];
      NothingRead(rowKeys);
      NothingServed();
      assert rowKeys[..0] == [];
      for i := 0 to |rowKeys|
        invariant Valid() && SameFile(old(FileOf()))
        invariant source.Undisturbed(quiet, cancel) ==> if budgetExceeded then
            BatchBytes(ServedBatch(rowKeys[..i])) > COPY_BUDGET else read == ServedBatch(rowKeys[..i])
        invariant |results| == |read| == i && BatchFits(rowKeys, read)
        invariant budgetExceeded == (BatchBytes(read) > COPY_BUDGET)
        invariant forall k | 0 <= k < i :: results[k].0 == read[k].0 && read[k].0 == rowKeys[k].0
        invariant !budgetExceeded ==> results == read && totalBatchBytes == BatchBytes(read)
      {
        Idle();
        if IsViewStale(viewGen) {
          return Some([]), [], quiet;
        }
        assert |read| == i;
        ServedNext(rowKeys, i);
        if budgetExceeded {
          var refused := (rowKeys[i].0, RefetchError(CopyBudgetExceeded));
          RefusalFits(rowKeys[i].1);
          BatchGrows(rowKeys, read, refused);
          results, read := results + [refused], read + [refused];
        } else {
          var res;
          ghost var still;
          res, still := RefetchWithRetry(viewGen, rowKeys[i].1, cancel);
          quiet := quiet && still;
          ServedNext(rowKeys, i);
          if res.RefetchOk? {
            totalBatchBytes := totalBatchBytes + RowBytes(res.values);
            if totalBatchBytes > COPY_BUDGET {
              budgetExceeded := true;
            }
          }
          BatchGrows(rowKeys, read, (rowKeys[i].0, res));
          results, read := results + [(rowKeys[i].0, res)], read + [(rowKeys[i].0, res)];
        }
      }
      assert rowKeys[..|rowKeys|] == rowKeys;
      if budgetExceeded {
        results := ClearBatch(results);
      }
      BatchDecided(read, results, budgetExceeded);
      if source.Undisturbed(quiet, cancel) {
        BatchDecided(ServedBatch(rowKeys), results, budgetExceeded);
      }
      Idle();
      if IsViewStale(viewGen) {
        return None, read, quiet;
      }
      return Some(results), read, quiet;
    }

    lemma NothingServed()
      requires source != null
      ensures ServedBatch([]) == [] && BatchBytes([]) == 0
    {
    }

    method ClearBatch(results: seq<(int, RefetchResult)>) returns (cleared: seq<(int, RefetchResult)>)
      ensures |cleared| == |results| && AllRefused(cleared)
      ensures forall k | 0 <= k < |results| :: cleared[k].0 == results[k].0
    {
      cleared := [];
      for k := 0 to |results|
        invariant |cleared| == k && AllRefused(cleared) && forall j | 0 <= j < k :: cleared[j].0 == results[j].0
      {
        cleared := cleared + [(results[k].0, RefetchError(CopyBudgetExceeded))];
      }
    }
  }
}
