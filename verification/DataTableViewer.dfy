/** The viewer object: the handlers as the UI thread runs them, assignment by assignment.  Each does
    to the protocol state exactly what the protocol's step does.  Its many flags are grouped into
    the three records of the protocol state. */
module DataTableViewer {
  import opened TableSource
  import opened SqlitePaging
  import opened PagerState
  import opened ViewerState

  class DataTableViewer {
    var generation: nat              // also the value of the shared view counter
    var opGen: nat
    var hasWorker: bool
    var isPaged: bool
    var isCsv: bool
    var firstPagePending: bool
    var sorts: Sorts
    var pages: Pages
    var counts: Counts
    var sent: seq<Job>               // jobs queued for the workers

    function State(): Viewer
      reads this
    {
      Viewer(generation, opGen, isPaged, isCsv, firstPagePending, sorts, pages, counts)
    }

    /** The state moves as the protocol says and the jobs of the step are queued. */
    twostate predicate Does(step: (Viewer, seq<Job>))
      reads this
    {
      State() == step.0 && sent == old(sent) + step.1 && hasWorker == isPaged
    }

    constructor ()
      ensures State() == Viewer(0, 0, false, false, false, NO_SORTS, NO_PAGES, NO_COUNTS) && !hasWorker && sent == []
    {
      generation, opGen, hasWorker, isPaged, isCsv, firstPagePending := 0, 0, false, false, false, false;
      sorts, pages, counts, sent := NO_SORTS, NO_PAGES, NO_COUNTS, [];
    }

    method Post(job: Job)
      modifies `sent
      ensures sent == old(sent) + [job]
    {
      sent := sent + [job];
    }

    method CancelPending()
      modifies this
      ensures Does((ViewerState.CancelPending(old(State())), []))
    {
      generation := generation + 1;
      opGen := opGen + 1;
      hasWorker := false;
      isPaged, isCsv, firstPagePending := false, false, false;
      sorts := Sorts(false, false, false, true, None, None);
      pages := Pages(false, 1, false, NEW_PAGER, NO_TOKEN, pages.shown);
      counts := Counts(false, false, false);
    }

    /** Starts over with another file or table. */
    method LoadSelectedTable(csv: bool)
      modifies this
      ensures Does(ViewerState.LoadSelectedTable(old(State()), csv))
    {
      CancelPending();
      isPaged, firstPagePending := true, true;
      pages := pages.(pendingPage := 1, pendingFromPrev := false, shown := None);
      isCsv := csv;
      opGen := 1;
      hasWorker := true;
      OpenCurrentSource(generation, 1);
    }

    method OpenCurrentSource(viewGen: nat, op: nat)
      modifies `sent
      ensures sent == old(sent) + if hasWorker then [OpenJob(viewGen, op)] else []
    {
      if !hasWorker {
        return;
      }
      Post(OpenJob(viewGen, op));
    }

    // ---- Sorting ---------------------------------------------------------------------------

    method OnSortClicked(column: nat)
      requires hasWorker == isPaged
      modifies this
      ensures Does(ViewerState.OnSortClicked(old(State()), column))
    {
      if !isPaged || !sorts.canSort {
        return;
      }
      if !hasWorker || sorts.recovering || (pages.inFlight && !sorts.sorting) {
        return;
      }
      var previous := if sorts.pending.Some? then sorts.pending else sorts.committed;
      var sort := SortState(column, !(previous.Some? && previous.value.column == column && previous.value.ascending));
      sorts := sorts.(pending := Some(sort));
      sorts := sorts.(sorting := true);
      opGen := opGen + 1;
      Post(SortJob(generation, opGen, sort));
    }

    method CancelSort()
      requires hasWorker == isPaged
      modifies this
      ensures Does(ViewerState.CancelSort(old(State())))
    {
      if sorts.sorting && !sorts.recovering {
        RecoverSort();
      }
    }

    method RecoverSort()
      requires hasWorker == isPaged
      modifies `sorts, `pages, `opGen, `sent
      ensures Does(ViewerState.RecoverSort(old(State())))
    {
      sorts := sorts.(pending := None);
      sorts := sorts.(recovering := true);
      pages := pages.(inFlight := false);
      opGen := opGen + 1;
      OpenCurrentSource(generation, opGen);
    }

    method FinishSortRecovery()
      requires hasWorker == isPaged
      modifies `sorts
      ensures Does((ViewerState.FinishSortRecovery(old(State())), []))
    {
      sorts := sorts.(sorting := false);
      sorts := sorts.(recovering := false);
    }

    method FailSortRecovery()
      requires hasWorker == isPaged
      modifies `sorts
      ensures Does((ViewerState.FailSortRecovery(old(State())), []))
    {
      sorts := sorts.(orderValid := false);
      sorts := sorts.(canSort := false);
      sorts := sorts.(sorting := false, recovering := false);
    }

    method OnOpenCompleted(s: Signal, configured: Option<int>)
      requires hasWorker == isPaged && s.OpenCompleted?
      modifies this
      ensures Does(ViewerState.OnOpenCompleted(old(State()), s, NormalizePageRows(configured)))
    {
      if s.viewGen != generation || !isPaged || s.opGen != opGen {
        return;
      }
      sorts := sorts.(canSort := s.canSort);
      if sorts.recovering {
        if !s.ok {
          FailSortRecovery();
        } else if sorts.committed.Some? {
          Post(SortJob(s.viewGen, s.opGen, sorts.committed.value));
        } else {
          FinishSortRecovery();
        }
      } else if !s.ok {
        CancelPending();
      } else {
        BeginFirstPage(s.viewGen, s.opGen, NormalizePageRows(configured));
      }
    }

    method BeginFirstPage(viewGen: nat, op: nat, pageSize: int)
      requires hasWorker == isPaged
      modifies `pages, `sent
      ensures Does((Opened(old(State()), pageSize), [PageJob(viewGen, op, FirstPage, pageSize)]))
    {
      var savedTotal := pages.pager.total;
      pages := pages.(pager := PagerState(1, pageSize, savedTotal,
          savedTotal.Some? && savedTotal.value > pageSize, false));
      pages := pages.(pendingPage := 1, pendingFromPrev := false, inFlight := true);
      Post(PageJob(viewGen, op, FirstPage, pageSize));
    }

    method OnSortCompleted(s: Signal)
      requires hasWorker == isPaged && s.SortCompleted?
      modifies this
      ensures Does(ViewerState.OnSortCompleted(old(State()), s))
    {
      if s.viewGen != generation || !isPaged || s.opGen != opGen {
        return;
      }
      if sorts.recovering {
        if s.ok {
          FinishSortRecovery();
        } else {
          FailSortRecovery();
        }
        return;
      }
      if !s.ok {
        RecoverSort();
        return;
      }
      counts := counts.(sortAuthoritative := true);
      pages := pages.(pager := pages.pager.(total := Some(s.total)));
      pages := pages.(pendingPage := 1, pendingFromPrev := false, inFlight := true);
      Post(PageJob(s.viewGen, s.opGen, FirstPage, pages.pager.pageSize));
    }

    // ---- Pages -----------------------------------------------------------------------------

    method OnPageReady(s: Signal)
      requires hasWorker == isPaged && s.PageReady?
      modifies this
      ensures Does(ViewerState.OnPageReady(old(State()), s))
    {
      if s.viewGen != generation || s.opGen != opGen || !isPaged {
        return;
      }
      pages := pages.(inFlight := false);
      if s.result.PageError? {
        if sorts.sorting {
          RecoverSort();
          return;
        }
        pages := pages.(pendingPage := pages.pager.page);
        return;
      }
      if !firstPagePending && !sorts.sorting && s.result.page.rows == [] {
        Vanished();
        return;
      }
      Commit(s.result.page);
    }

    /** The rows asked for are gone: keep the page and count again. */
    method Vanished()
      requires hasWorker == isPaged
      modifies `pages, `counts
      ensures Does((PageVanished(old(State())), []))
    {
      pages := pages.(pager := pages.pager.(hasMore := false));
      if !counts.failed && !isCsv {
        counts := counts.(sortAuthoritative := false);
        counts := counts.(requested := true);
      }
    }

    method Commit(page: Page)
      requires hasWorker == isPaged
      modifies `pages, `sorts, `firstPagePending, `counts
      ensures Does((CommitPage(old(State()), page), []))
    {
      hide Display, StartCount;
      ShowPage(page);
      if sorts.sorting && !sorts.recovering {
        sorts := sorts.(committed := sorts.pending);
        sorts := sorts.(pending := None);
        FinishSortRecovery();
      }
      firstPagePending := false;
      RequestCount();
    }

    method ShowPage(page: Page)
      modifies `pages
      ensures pages == Display(old(pages), page) && pages.pager.total == old(pages.pager.total)
    {
      var pager := pages.pager.(page := pages.pendingPage, arrivedFromPrev := pages.pendingFromPrev);
      if pager.total.Some? {
        pager := pager.(hasMore := pager.total.value > pager.page * pager.pageSize);
      } else {
        pager := pager.(hasMore := page.hasMore);
      }
      var firstRow := if |page.rows| > 0 then FirstRowOnPage(pager.page, pager.pageSize) else 0;
      pages := pages.(pager := pager, token := page.token);
      pages := pages.(shown := Some(Shown(page.rows, if firstRow > 0 then firstRow - 1 else 0, page.texts)));
    }

    method RequestCount()
      modifies `counts
      ensures counts == StartCount(old(counts), isCsv, pages.pager.total)
    {
      if !isCsv && !counts.requested && !counts.failed && pages.pager.total == None {
        counts := counts.(requested := true);
      }
    }

    /** The guards and flags common to all page buttons. */
    method NavigatePage(target: int, fromPrev: bool, query: Query)
      requires hasWorker == isPaged
      modifies `pages, `opGen, `sent
      ensures Does(ViewerState.NavigatePage(old(State()), target, fromPrev, query))
    {
      if !isPaged || !sorts.orderValid || sorts.sorting || pages.inFlight || !hasWorker {
        return;
      }
      pages := pages.(inFlight := true);
      pages := pages.(pendingPage := target, pendingFromPrev := fromPrev);
      opGen := opGen + 1;
      Post(PageJob(generation, opGen, query, pages.pager.pageSize));
    }

    method OnFirstPageClicked()
      requires hasWorker == isPaged
      modifies this
      ensures Does(OnPageClicked(old(State()), FirstButton))
    {
      if pages.pager.CanFirst() {
        NavigatePage(1, false, FirstPage);
      }
    }

    method OnPrevPageClicked()
      requires hasWorker == isPaged
      modifies this
      ensures Does(OnPageClicked(old(State()), PrevButton))
    {
      if pages.pager.CanPrev() {
        NavigatePage(pages.pager.page - 1, true, PrevPage(pages.token));
      }
    }

    method OnNextPageClicked()
      requires hasWorker == isPaged
      modifies this
      ensures Does(OnPageClicked(old(State()), NextButton))
    {
      if pages.pager.CanNext() {
        NavigatePage(pages.pager.page + 1, false, NextPage(pages.token));
      }
    }

    method OnLastPageClicked()
      requires hasWorker == isPaged
      modifies this
      ensures Does(OnPageClicked(old(State()), LastButton))
    {
      if pages.pager.CanLast() && pages.pager.total.Some? {
        NavigatePage(pages.pager.Pages(), false, LastPage(pages.pager.total.value));
      }
    }

    // ---- Totals ----------------------------------------------------------------------------

    method OnIndexProgress(s: Signal)
      requires hasWorker == isPaged && s.IndexProgress?
      modifies `pages
      ensures Does((ViewerState.OnIndexProgress(old(State()), s), []))
    {
      if s.viewGen != generation || !isPaged || !isCsv {
        return;
      }
      if s.failed {
        return;
      }
      if s.isComplete {
        var pager := pages.pager.(total := Some(s.rows));
        pages := pages.(pager := pager.(hasMore := s.rows > pager.page * pager.pageSize));
      }
    }

    method OnCountCompleted(viewGen: nat, ok: bool, total: int)
      requires hasWorker == isPaged
      modifies `pages, `counts
      ensures Does((ViewerState.OnCountCompleted(old(State()), viewGen, ok, total), []))
    {
      if viewGen != generation || !isPaged {
        return;
      }
      if ok && !counts.sortAuthoritative {
        pages := pages.(pager := pages.pager.(total := Some(total)));
      } else if !ok {
        counts := counts.(failed := true);
      }
    }
  }
}
