/** A row id that a reopen does not find again.  The probes for it may fail without failing the open;
    after a reopen that has no sort to restore the viewer goes on with its row-id tokens, which the
    source now reads as offsets. */
module LostRowid {
  import opened TableSource
  import opened SqlitePaging
  import opened PagerState
  import opened ViewerState
  import opened ViewerProtocol
  import ViewerProgress

  /** In every run: what an adrift view shows is the page of its number, or the rows from the one its
      token names; its token is read as an offset. */
  lemma AdriftDisplay(s: System)
    requires Reachable(s) && Adrift(s)
    ensures !s.v.isCsv && s.data.hasRowid && Keyed(s.data.table) && s.v.sorts.committed == None && !s.v.sorts.canSort
    ensures s.v.pages.shown.Some? ==> s.announced && s.begun
    ensures s.v.pages.shown.Some? ==> var p := s.v.pages;
      && p.pager.page >= 1 && MIN_PAGE_ROWS <= p.pager.pageSize <= MAX_PAGE_ROWS && p.token.offset >= 0
      && TokenAt(p.token, s.data.table, Offset, p.token.offset, p.pager.pageSize)
      && (ShowsRow(p, s.data, (p.pager.page - 1) * p.pager.pageSize) || ShowsRow(p, s.data, p.token.offset))
  {
    ReachableHolds(s);
    hide Bounded, OneCurrent, Awaits, Executed, ProgressFollowsOpen, TotalsExact, TokenAt;
  }

  /** The rows on display are those of the page that starts at row `lo` of the unsorted table. */
  ghost predicate ShowsRow(p: Pages, d: Data, lo: int) {
    p.shown.Some? && lo >= 0 && p.pager.pageSize >= 0 && p.shown.value.rows == Slice(d.table, lo, p.pager.pageSize)
  }

  /** In every run: of the pages that reach an adrift view, exactly those are shown under their right
      number whose offset is the one of the page asked for. */
  lemma AdriftShowsIff(s: System)
    requires Reachable(s) && Adrift(s)
    requires s.signals != [] && s.signals[0].PageReady? && Accepts(s.v, s.signals[0].viewGen, s.signals[0].opGen)
    requires s.signals[0].result.PageOk? && s.signals[0].result.page.rows != []
    ensures var page, w := s.signals[0].result.page, OnPageReady(s.v, s.signals[0]).0;
      && w.pages.pager.page == s.v.pages.pendingPage >= 1
      && ShowsRow(w.pages, s.data, page.token.offset)
      && (ShowsRow(w.pages, s.data, Start(s.v.pages)) <==> page.token.offset == Start(s.v.pages))
  {
    hide InvAt, PageAt, Slice, Adrift, Keyed, ReplyFits;
    ReachableHolds(s);
    var c: Option<Current> :| InvAt(s, c);
    var page := s.signals[0].result.page;
    HeadIsEither(s, c);
    PopsCurrent(s, c);
    AwaitsPage(s, c);
    Arrives(s, c.value, page);
    PageIsThere(page, s.data.table, page.token.offset, s.v.pages.pager.pageSize);
    Grows(0, s.v.pages.pendingPage - 1, s.v.pages.pager.pageSize);
    SlicesDiffer(s.data.table, Start(s.v.pages), page.token.offset, s.v.pages.pager.pageSize);
  }

  lemma AwaitsPage(s: System, c: Option<Current>)
    requires InvAt(s, c) && Adrift(s)
    ensures s.v.isPaged && !s.v.sorts.sorting && !s.v.sorts.recovering && (c.Some? ==> !c.value.job.SortJob?)
    ensures c.Some? && c.value.job.OpenJob? ==> Opening(s.v)
  {
  }

  lemma Arrives(s: System, c: Current, page: Page)
    requires InvAt(s, Some(c)) && s.v.isPaged && Adrift(s) && s.signals != [] && s.signals[0].PageReady?
    requires ReplyFits(s, c.job, s.signals[0]) && s.signals[0].result == PageOk(page)
    ensures page.token.offset >= 0 && PageAt(page, s.data.table, Offset, page.token.offset, s.v.pages.pager.pageSize)
    ensures s.v.pages.pendingPage >= 1 && s.v.pages.pager.pageSize > 0 && Keyed(s.data.table)
  {
    hide InvAt, PageAt, Answer, Slice;
    AwaitedPage(s, c);
    NotCsv(s, Some(c));
    AdriftContent(s, c, s.v.(pages := s.v.pages.(inFlight := false)), page);
  }

  lemma PageIsThere(page: Page, rows: seq<TableRow>, lo: nat, size: nat)
    requires PageAt(page, rows, Offset, lo, size)
    ensures page.rows == Slice(rows, lo, size) && (page.rows != [] ==> lo < |rows|)
  {
  }

  // ---- A run -------------------------------------------------------------------------------

  /** The worker serves the page and the viewer shows it. */
  lemma Answered(s: System, job: Job, page: Page) returns (t: System)
    requires ViewerProgress.Asked(s, job) && !s.v.isCsv && job.PageJob?
    requires s.order == None && page.rows != [] && !s.v.sorts.sorting
    requires PageOk(page) == Answer(s.data.table, s.data.hasRowid && !s.lost, None, job.query, job.size)
    ensures Reachable(t) && t == s.(jobs := [], v := CommitPage(s.v.(pages := s.v.pages.(inFlight := false)), page))
  {
    hide Reachable, Answer;
    var reply := PageReady(job.viewGen, job.opGen, PageOk(page));
    t := ViewerProgress.Ran(s, job, reply, None, false, MIN_PAGE_ROWS);
  }

  /** The worker opens the table and the viewer goes on. */
  lemma Opened(s: System, job: Job, found: bool) returns (t: System)
    requires ViewerProgress.Asked(s, job) && !s.v.isCsv && job.OpenJob? && s.data.hasRowid && (found || s.begun)
    ensures var reply := OpenCompleted(job.viewGen, job.opGen, true, found);
      && Reachable(t)
      && t == Acts(s.(jobs := [], order := None, announced := true, begun := true, lost := s.begun && !found),
                   OnOpenCompleted(s.v, reply, MIN_PAGE_ROWS))
  {
    hide Reachable;
    var reply := OpenCompleted(job.viewGen, job.opGen, true, found);
    t := ViewerProgress.Ran(s, job, reply, None, found, MIN_PAGE_ROWS);
  }

  /** A table of just over two pages. */
  function ThreePages(): (table: seq<TableRow>)
    ensures |table| == 201 && forall i | 0 <= i < 201 :: table[i] == TableRow(i, [])
  {
    seq(201, i => TableRow(i, []))
  }

  /** A resting viewer on page `k` of that table, read by row id before the loss. */
  ghost predicate Rests(s: System, k: int, lost: bool) {
    var p := s.v.pages;
    && Reachable(s) && s.worker == Worker.Idle && s.parked == None && s.signals == [] && s.jobs == []
    && s.data == Data(ThreePages(), true, ANY_TEXT) && s.order == None && s.announced && s.begun && s.lost == lost
    && s.v.isPaged && !s.v.isCsv && !s.v.firstPagePending && s.v.sorts == NO_SORTS.(canSort := !lost)
    && !p.inFlight && p.pager == PagerState(k, MIN_PAGE_ROWS, None, true, false)
    && k >= 1 && TokenAt(p.token, s.data.table, Keyset, (k - 1) * MIN_PAGE_ROWS, MIN_PAGE_ROWS)
    && ShowsRow(p, s.data, (k - 1) * MIN_PAGE_ROWS)
  }

  lemma FirstShown() returns (s: System)
    ensures Rests(s, 1, false)
  {
    hide Reachable, Answer, TokenAt;
    Begun();
    var d := Data(ThreePages(), true, ANY_TEXT);
    var loaded := Acts(START, LoadSelectedTable(START.v, false)).(data := d);
    Extends(START, Load(false, d), loaded);
    var asked := Opened(loaded, OpenJob(1, 1), true);
    FirstAnswers(d.table, true, None, MIN_PAGE_ROWS);
    s := Answered(asked, asked.jobs[0], Answer(d.table, true, None, FirstPage, MIN_PAGE_ROWS).page);
  }

  lemma SecondShown() returns (s: System)
    ensures Rests(s, 2, false)
  {
    hide Reachable, Answer, TokenAt;
    var first := FirstShown();
    var token := first.v.pages.token;
    var asked := Acts(first, OnPageClicked(first.v, NextButton));
    Extends(first, ClickPage(NextButton), asked);
    ValidWithin(token, first.data.table, Keyset, 0, MIN_PAGE_ROWS);
    NextAnswers(first.data.table, true, None, token, 0, MIN_PAGE_ROWS);
    s := Answered(asked, asked.jobs[0], Answer(first.data.table, true, None, NextPage(token), MIN_PAGE_ROWS).page);
  }

  /** A sort is clicked and cancelled, and the reopen does not find the row id. */
  lemma Loses() returns (s: System)
    ensures Rests(s, 2, true) && Adrift(s)
  {
    hide Reachable, TokenAt;
    var second := SecondShown();
    var sorting := Acts(second, OnSortClicked(second.v, 0));
    Extends(second, ClickSort(0), sorting);
    var cancelled := Acts(sorting, CancelSort(sorting.v));
    Extends(sorting, ClickCancel, cancelled);
    var asked := cancelled.(jobs := cancelled.jobs[1..]);
    Extends(cancelled, DropStale, asked);
    s := Opened(asked, asked.jobs[0], false);
  }

  /** The viewer numbers the rows on display as a page they are not. */
  ghost predicate Misled(s: System) {
    var p := s.v.pages;
    && s.v.isPaged && !s.v.sorts.sorting && s.v.sorts.orderValid && !p.inFlight && p.shown.Some?
    && !ShowsRow(p, s.data, (p.pager.page - 1) * p.pager.pageSize)
  }

  /** The display theorem needs its condition: in this run the second page is on display, the row id is
      lost, and the next page shows the second one again under number 3. */
  lemma LossMisleads()
    ensures exists s: System ::
      Reachable(s) && Adrift(s) && Misled(s) && s.v.pages.pager.page == 3 && ShowsRow(s.v.pages, s.data, MIN_PAGE_ROWS)
  {
    hide Reachable, Answer, TokenAt;
    var lost := Loses();
    var d, token := lost.data, lost.v.pages.token;
    var asked := Acts(lost, OnPageClicked(lost.v, NextButton));
    Extends(lost, ClickPage(NextButton), asked);
    ValidWithin(token, d.table, Keyset, MIN_PAGE_ROWS, MIN_PAGE_ROWS);
    LostRowidIff(d.table, token, MIN_PAGE_ROWS, MIN_PAGE_ROWS);
    var s := Answered(asked, asked.jobs[0], Answer(d.table, false, None, NextPage(token), MIN_PAGE_ROWS).page);
    assert Misled(s);
  }
}
