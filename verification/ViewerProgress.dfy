/** What the viewer gets done: runs in which nothing fails, and the ways back when something does. */
module ViewerProgress {
  import opened TableSource
  import opened SqlitePaging
  import opened PagerState
  import opened ViewerState
  import opened ViewerProtocol

  // ---- Runs --------------------------------------------------------------------------------

  /** A view for which nothing is on its way. */
  ghost predicate AtRest(s: System) {
    Reachable(s) && s.v.isPaged && s.worker == Worker.Idle && s.parked == None && s.signals == [] && s.jobs == []
  }

  /** Such a view waits for nothing. */
  lemma RestIsIdle(s: System)
    requires AtRest(s)
    ensures !s.v.sorts.sorting && !s.v.sorts.recovering && s.v.sorts.pending == None && !s.v.pages.inFlight
    ensures s.announced && s.begun && GoodData(s.data, s.v.isCsv)
    ensures s.v.sorts.orderValid ==> s.order == s.v.sorts.committed
    ensures s.v.sorts.canSort ==> s.v.sorts.orderValid && s.data.hasRowid && !s.lost && !s.v.isCsv
    ensures MIN_PAGE_ROWS <= s.v.pages.pager.pageSize <= MAX_PAGE_ROWS
    ensures s.v.firstPagePending == (s.v.pages.shown == None)
  {
    ReachableHolds(s);
    hide Executed, ShowsPage, TotalsExact, NextKnown, Strays;
  }

  /** Nothing is on its way but the job the viewer has just queued. */
  ghost predicate Asked(s: System, job: Job) {
    && Reachable(s) && s.worker == Worker.Idle && s.parked == None && s.signals == [] && s.jobs == [job]
    && !Stale(s.v, job) && s.v.isPaged
  }

  /** The worker runs the job and the viewer handles its reply. */
  lemma Ran(s: System, job: Job, reply: Signal, after: Option<SortState>, found: bool, pageSize: int)
    returns (t: System)
    requires Asked(s, job) && MIN_PAGE_ROWS <= pageSize <= MAX_PAGE_ROWS
    requires Executes(s.data, s.v.isCsv, s.latched, s.lost, s.order, job, reply, after, found)
    ensures Reachable(t)
    ensures t == Acts(Emission(Beginning(s, reply, after, found)).(signals := []), Handle(s.v, reply, pageSize))
  {
    hide Reachable, Executes, Handle, Acts;
    var s1 := Beginning(s, reply, after, found);
    Extends(s, Begin(reply, after, found), s1);
    Extends(s1, Emit, Emission(s1));
    t := Acts(Emission(s1).(signals := []), Handle(s.v, reply, pageSize));
    assert Emission(s1).signals == [reply] && [reply][1..] == [];
    Extends(Emission(s1), Deliver(pageSize), t);
  }

  // ---- Opening -----------------------------------------------------------------------------

  /** Whatever was there before: a file or table that is loaded shows its first page.  It can be sorted exactly if
      its row id was found, and the rows of a table are being counted. */
  lemma OpenShows(s: System, isCsv: bool, d: Data, found: bool, pageSize: int, page: Page) returns (t: System)
    requires Reachable(s) && s.signals == [] && GoodData(d, isCsv) && MIN_PAGE_ROWS <= pageSize <= MAX_PAGE_ROWS
    requires Answers(d.(hasRowid := d.hasRowid && found), isCsv, false, false, None, FirstPage, pageSize, PageOk(page))
    ensures AtRest(t) && t.v.isCsv == isCsv && t.data == d.(hasRowid := d.hasRowid && found) && !t.latched && !t.lost
    ensures t.v.pages.pager.page == 1 && t.v.pages.pager.pageSize == pageSize && t.v.pages.pager.total == None
    ensures t.v.pages.shown.Some? && t.v.pages.shown.value.rows == page.rows == Slice(d.table, 0, pageSize)
    ensures t.v.sorts == NO_SORTS.(canSort := d.hasRowid && found) && t.v.counts.requested == !isCsv
    ensures !t.v.counts.failed && !t.v.counts.sortAuthoritative
  {
    hide Reachable, Answers;
    var loaded := Acts(s, LoadSelectedTable(s.v, isCsv)).(data := d);
    Extends(s, Load(isCsv, d), loaded);
    var open := loaded.jobs[0];
    var done := OpenCompleted(open.viewGen, open.opGen, true, d.hasRowid && found);
    var asked := Ran(loaded, open, done, None, found, pageSize);
    var fetch := asked.jobs[0];
    t := Ran(asked, fetch, PageReady(fetch.viewGen, fetch.opGen, PageOk(page)), None, found, pageSize);
    FirstIsFirst(d.(hasRowid := d.hasRowid && found), isCsv, pageSize, page);
  }

  lemma FirstIsFirst(d: Data, isCsv: bool, pageSize: int, page: Page)
    requires GoodData(d, isCsv) && MIN_PAGE_ROWS <= pageSize <= MAX_PAGE_ROWS
    requires Answers(d, isCsv, false, false, None, FirstPage, pageSize, PageOk(page))
    ensures page.rows == Slice(d.table, 0, pageSize)
  {
    hide TokenAt, Slice, Answer;
    if !isCsv {
      FirstAnswers(d.table, d.hasRowid, None, pageSize);
    }
  }

  /** The rows of a table are counted behind its first page, and the count becomes the total. */
  lemma CountArrives(s: System) returns (t: System)
    requires AtRest(s) && !s.v.isCsv && s.v.counts.requested && !s.v.counts.sortAuthoritative
    ensures AtRest(t) && t.v == s.v.(pages := t.v.pages) && t.v.pages.pager.total == Some(|s.data.table|)
    ensures t.v.pages == s.v.pages.(pager := s.v.pages.pager.(total := Some(|s.data.table|)))
  {
    hide Reachable;
    t := Acts(s, (OnCountCompleted(s.v, s.v.generation, true, |s.data.table|), []));
    Extends(s, CountDone(true), t);
  }

  /** A count that fails is noted and changes nothing else; one that comes after a sort is not even looked at. */
  lemma CountFails(s: System) returns (t: System)
    requires AtRest(s) && !s.v.isCsv && s.v.counts.requested
    ensures AtRest(t) && t.v == s.v.(counts := s.v.counts.(failed := true))
    ensures s.v.counts.sortAuthoritative ==>
      forall rows :: OnCountCompleted(s.v, s.v.generation, true, rows) == s.v
  {
    hide Reachable;
    t := Acts(s, (OnCountCompleted(s.v, s.v.generation, false, |s.data.table|), []));
    Extends(s, CountDone(false), t);
  }

  /** The end of indexing makes the total of a file known. */
  lemma IndexEnds(s: System) returns (t: System)
    requires AtRest(s) && s.v.isCsv
    ensures AtRest(t) && t.v == s.v.(pages := s.v.pages.(pager := t.v.pages.pager))
    ensures var pager := s.v.pages.pager;
      t.v.pages.pager ==
      pager.(total := Some(|s.data.table|), hasMore := pager.page * pager.pageSize < |s.data.table|)
  {
    t := Ticked(s, |s.data.table|, true, false);
  }

  /** Progress before the end, and an end by a failure, leave the view as it is. */
  lemma IndexGoesOn(s: System, rows: int, isComplete: bool, failed: bool) returns (t: System)
    requires AtRest(s) && s.v.isCsv && (isComplete ==> rows == |s.data.table|) && (failed || !isComplete)
    ensures AtRest(t) && t.v == s.v
  {
    t := Ticked(s, rows, isComplete, failed);
  }

  lemma Ticked(s: System, rows: int, isComplete: bool, failed: bool) returns (t: System)
    requires AtRest(s) && s.v.isCsv && (isComplete ==> rows == |s.data.table|)
    ensures AtRest(t) && t == s.(v := OnIndexProgress(s.v, IndexProgress(s.v.generation, rows, isComplete, failed)))
  {
    RestIsIdle(s);
    hide Reachable;
    var tick := IndexProgress(s.v.generation, rows, isComplete, failed);
    var told := s.(signals := [tick]);
    Extends(s, IndexTick(rows, isComplete, failed), told);
    t := Acts(told.(signals := []), Handle(told.v, tick, MIN_PAGE_ROWS));
    Extends(told, Deliver(MIN_PAGE_ROWS), t);
  }

  lemma PagerIsExact(s: System)
    requires AtRest(s)
    ensures s.v.pages.pager.pageSize > 0 && s.v.pages.pager.page >= 1
    ensures s.v.pages.pager.total.Some? ==> s.v.pages.pager.total.value == |s.data.table|
  {
    ReachableHolds(s);
    hide Traffic, ShowsPage, NextKnown, Strays, OrderKept, Awaits;
  }

  /** With the total known, next is enabled exactly while rows remain behind the page. */
  lemma NextIsExact(s: System)
    requires AtRest(s) && s.v.pages.pager.total == Some(|s.data.table|)
    ensures s.v.pages.pager.CanNext() <==> s.v.pages.pager.page * s.v.pages.pager.pageSize < |s.data.table|
  {
    PagerIsExact(s);
    NextIffRowsRemain(s.v.pages.pager);
  }

  // ---- Pages -------------------------------------------------------------------------------

  /** The page a button means. */
  ghost predicate Means(b: Button, pager: PagerState, rows: nat, page: int) {
    match b
    case FirstButton => page == 1
    case PrevButton => page == pager.page - 1
    case NextButton => page == pager.page + 1
    case LastButton => (page - 1) * pager.pageSize < rows <= page * pager.pageSize
  }

  /** The rows on display are those of the page of its number, in the given order. */
  ghost predicate OnDisplay(p: Pages, order: seq<TableRow>) {
    && p.shown.Some? && p.pager.pageSize >= 0 && (p.pager.page - 1) * p.pager.pageSize >= 0
    && p.shown.value.rows == Slice(order, (p.pager.page - 1) * p.pager.pageSize, p.pager.pageSize)
  }

  lemma IsOnDisplay(s: System)
    requires Reachable(s) && s.v.isPaged && s.v.pages.shown.Some? && !Adrift(s) && !s.latched
    requires s.v.isCsv ==> s.v.sorts.committed == None
    ensures OnDisplay(s.v.pages, OrderOf(s.data.table, s.v.sorts.committed))
  {
    hide Reachable, Ordered, Slice, TokenAt, TextsFit;
    DisplayAgrees(s);
    Grows(0, s.v.pages.pager.page - 1, s.v.pages.pager.pageSize);
  }

  lemma FileIsUnsorted(s: System)
    requires Reachable(s) && s.v.isCsv && s.v.isPaged
    ensures s.v.sorts.committed == None
  {
    ReachableHolds(s);
    hide Traffic, ShowsPage, NextKnown, Awaits;
  }

  /** An enabled button asks for the page it means. */
  lemma PageAsks(s: System, b: Button) returns (t: System, job: Job)
    requires AtRest(s) && s.v.sorts.orderValid && Enabled(s.v.pages.pager, b)
    ensures Asked(t, job) && job.PageJob? && job.size == s.v.pages.pager.pageSize
    ensures t == s.(v := t.v, jobs := [job])
    ensures t.v == s.v.(opGen := s.v.opGen + 1, pages := t.v.pages)
    ensures t.v.pages == s.v.pages.(inFlight := true, pendingPage := t.v.pages.pendingPage,
                                    pendingFromPrev := b.PrevButton?)
    ensures Means(b, s.v.pages.pager, |s.data.table|, t.v.pages.pendingPage)
    ensures OnPageClicked(s.v, b) == (t.v, [job])
  {
    RestIsIdle(s);
    if b.LastButton? {
      LastIsMeant(s);
    }
    hide Reachable;
    t := Acts(s, OnPageClicked(s.v, b));
    Extends(s, ClickPage(b), t);
    job := t.jobs[0];
  }

  /** A page button that is enabled shows the page it means, in the order on display, once the source has answered
      with rows; and the view is at rest again. */
  lemma PageTurns(s: System, b: Button, page: Page) returns (t: System)
    requires AtRest(s) && s.v.pages.shown.Some? && s.v.sorts.orderValid && !Adrift(s) && !s.latched
    requires Enabled(s.v.pages.pager, b) && page.rows != []
    requires var jobs := OnPageClicked(s.v, b).1;
      |jobs| == 1 && jobs[0].PageJob? ==>
        Answers(s.data, s.v.isCsv, s.latched, s.lost, s.order, jobs[0].query, jobs[0].size, PageOk(page))
    ensures AtRest(t) && t.data == s.data && t.v.sorts == s.v.sorts
    ensures Means(b, s.v.pages.pager, |s.data.table|, t.v.pages.pager.page)
    ensures t.v.pages.pager.pageSize == s.v.pages.pager.pageSize
    ensures t.v.pages.shown.Some? && t.v.pages.shown.value.rows == page.rows
    ensures OnDisplay(t.v.pages, OrderOf(s.data.table, s.v.sorts.committed))
    ensures t.v.pages.pager.hasMore ==
      if s.v.pages.pager.total.Some? then RowsRemain(t.v.pages.pager, s.data) else page.hasMore
  {
    RestIsIdle(s);
    PagerIsExact(s);
    hide Reachable, Answers, OnPageClicked, Means, OnDisplay, GoodData;
    var asked, job := PageAsks(s, b);
    t := Ran(asked, job, PageReady(job.viewGen, job.opGen, PageOk(page)), s.order, false, MIN_PAGE_ROWS);
    if t.v.isCsv {
      FileIsUnsorted(t);
    }
    IsOnDisplay(t);
  }

  lemma LastIsMeant(s: System)
    requires AtRest(s) && s.v.pages.pager.CanLast()
    ensures var p := s.v.pages.pager;
      p.total == Some(|s.data.table|) && (p.Pages() - 1) * p.pageSize < |s.data.table| <= p.Pages() * p.pageSize
  {
    PagerIsExact(s);
    PagesCover(s.v.pages.pager);
  }

  /** In every run: a view that waits for a page or a sort takes no page button, and one that has been left takes
      nothing at all, whatever still arrives for it. */
  lemma BusyOrLeft(s: System)
    requires Reachable(s)
    ensures s.v.pages.inFlight || s.v.sorts.sorting || !s.v.isPaged ==> forall b :: OnPageClicked(s.v, b) == (s.v, [])
    ensures !s.v.isPaged ==>
      && (forall column :: OnSortClicked(s.v, column) == (s.v, [])) && CancelSort(s.v) == (s.v, [])
      && (forall signal, size :: Handle(s.v, signal, size) == (s.v, []))
    ensures s.v.sorts.recovering || !s.v.sorts.sorting ==> CancelSort(s.v) == (s.v, [])
  {
    ReachableHolds(s);
    hide Traffic, Content, OrderKept;
  }

  /** Leaving a view keeps its rows on display and makes everything on its way stale. */
  lemma LeavingKeepsRows(s: System) returns (t: System)
    requires Reachable(s)
    ensures Reachable(t) && Steps(s, Retire, t) && !t.v.isPaged && t.v.pages.shown == s.v.pages.shown
    ensures t.jobs == [] && t.parked == None && t.worker == Worker.Idle
    ensures forall i | 0 <= i < |t.signals| :: t.signals[i].viewGen != t.v.generation
  {
    assert Inv(s) by {
      ReachableHolds(s);
    }
    t := Acts(s, (CancelPending(s.v), []));
    Extends(s, Retire, t);
  }

  /** An answer without rows leaves the page on display, behind which there is then nothing; the rows of a table
      are counted again, whatever a sort has said about them. */
  lemma EmptyPage(s: System, job: Job, page: Page) returns (t: System)
    requires Asked(s, job) && job.PageJob? && page.rows == []
    requires s.v.pages.shown.Some? && !s.v.firstPagePending && !s.v.sorts.sorting
    requires Answers(s.data, s.v.isCsv, s.latched, s.lost, s.order, job.query, job.size, PageOk(page))
    ensures AtRest(t) && t.v == s.v.(pages := t.v.pages, counts := t.v.counts)
    ensures t.v.pages == s.v.pages.(inFlight := false, pager := s.v.pages.pager.(hasMore := false))
    ensures s.v.isCsv || s.v.counts.failed ==> t.v.counts == s.v.counts
    ensures !s.v.isCsv && !s.v.counts.failed ==>
      t.v.counts.requested && !t.v.counts.sortAuthoritative && !t.v.counts.failed
  {
    hide Reachable, Answers;
    t := Ran(s, job, PageReady(job.viewGen, job.opGen, PageOk(page)), s.order, false, MIN_PAGE_ROWS);
  }

  /** A page that cannot be had leaves everything on display as it was. */
  lemma PageFails(s: System, b: Button, error: SqliteError) returns (t: System)
    requires AtRest(s) && s.v.sorts.orderValid && Enabled(s.v.pages.pager, b)
    ensures AtRest(t) && t.data == s.data && t.v.sorts == s.v.sorts
    ensures t.v.pages.pager == s.v.pages.pager && t.v.pages.token == s.v.pages.token
    ensures t.v.pages.shown == s.v.pages.shown && t.v.pages.pendingPage == s.v.pages.pager.page
  {
    RestIsIdle(s);
    hide Reachable, OnPageClicked, Means, GoodData;
    var asked, job := PageAsks(s, b);
    t := Ran(asked, job, PageReady(job.viewGen, job.opGen, PageError(error)), s.order, false, MIN_PAGE_ROWS);
  }

  // ---- Sorting -----------------------------------------------------------------------------

  /** A header click is taken: the view can be sorted, and it neither restores an order nor waits for a page
      without sorting. */
  predicate TakesSort(v: Viewer) {
    v.isPaged && v.sorts.canSort && !v.sorts.recovering && (v.pages.inFlight ==> v.sorts.sorting)
  }

  /** The order that the next click starts from: the one being established, otherwise the one on display. */
  function Newest(v: Viewer): Option<SortState> {
    if v.sorts.sorting then v.sorts.pending else v.sorts.committed
  }

  /** In column order the cells of a column never fall. */
  ghost predicate Rises(rows: seq<TableRow>, column: nat) {
    forall i, j | 0 <= i < j < |rows| && column < |rows[i].ranks| && column < |rows[j].ranks| ::
      rows[i].ranks[column] <= rows[j].ranks[column]
  }

  ghost predicate Covers(table: seq<TableRow>, column: nat) {
    forall r | r in table :: column < |r.ranks|
  }

  /** In every run: a click on the column that is sorted by asks for its rows backwards, and a click on any other
      column for that column ascending. */
  lemma SortClickAsks(s: System, column: nat) returns (t: System, sort: SortState)
    requires Reachable(s) && TakesSort(s.v)
    ensures Reachable(t) && Steps(s, ClickSort(column), t)
    ensures t == s.(v := t.v, jobs := s.jobs + [SortJob(t.v.generation, t.v.opGen, sort)])
    ensures t.v == s.v.(opGen := s.v.opGen + 1, sorts := s.v.sorts.(pending := Some(sort), sorting := true))
    ensures sort.column == column
    ensures var newest, table := Newest(s.v), s.data.table;
      if newest.Some? && newest.value.column == column then
        OrderOf(table, Some(sort)) == Reverse(OrderOf(table, newest))
      else sort.ascending && (Covers(table, column) ==> Rises(OrderOf(table, Some(sort)), column))
  {
    hide InvAt, Ordered, Reachable;
    SortableIsKeyed(s);
    sort := Toggled(s.v.sorts, column);
    t := Acts(s, OnSortClicked(s.v, column));
    Extends(s, ClickSort(column), t);
    var newest, table := Newest(s.v), s.data.table;
    if newest.Some? && newest.value.column == column {
      OtherDirection(table, newest.value);
    } else if Covers(table, column) {
      forall i, j | 0 <= i < j < |Ordered(table, sort)| ensures
        var rows := Ordered(table, sort);
        column < |rows[i].ranks| && column < |rows[j].ranks| && rows[i].ranks[column] <= rows[j].ranks[column]
      {
        OrderedSorts(table, sort);
        DirectionOf(table, column, i, j);
      }
    }
  }

  lemma SortableIsKeyed(s: System)
    requires Reachable(s) && TakesSort(s.v)
    ensures s.data.hasRowid && Keyed(s.data.table) && DistinctIds(s.data.table)
    ensures s.v.sorts.sorting ==> s.v.sorts.pending.Some?
    ensures !s.v.sorts.sorting ==> s.v.sorts.pending == None
  {
    ReachableHolds(s);
    hide Traffic, ShowsPage, NextKnown, Awaits;
  }

  /** Any other click is ignored. */
  lemma SortClickIgnored(s: System, column: nat)
    requires !TakesSort(s.v)
    ensures Acts(s, OnSortClicked(s.v, column)) == s
  {
  }

  /** What a click on `column` asks for, given the order before. */
  ghost predicate Turned(table: seq<TableRow>, before: Option<SortState>, column: nat, sort: SortState) {
    && sort.column == column
    && if before.Some? && before.value.column == column then
         OrderOf(table, Some(sort)) == Reverse(OrderOf(table, before))
       else sort.ascending && (Covers(table, column) ==> Rises(OrderOf(table, Some(sort)), column))
  }

  /** The worker has sorted and the viewer asks for the first page. */
  lemma SortRuns(s: System, column: nat) returns (t: System, job: Job, sort: SortState)
    requires AtRest(s) && s.v.sorts.canSort
    ensures Asked(t, job) && job.PageJob? && job.query == FirstPage && job.size == s.v.pages.pager.pageSize
    ensures t.data == s.data && t.order == Some(sort) && t.latched == s.latched && !t.lost && !t.v.isCsv
    ensures t.v.sorts == s.v.sorts.(pending := Some(sort), sorting := true)
    ensures t.v.pages.pager == s.v.pages.pager.(total := Some(|s.data.table|)) && t.v.pages.pendingPage == 1
    ensures t.v.counts.sortAuthoritative
    ensures Turned(s.data.table, s.v.sorts.committed, column, sort)
  {
    RestIsIdle(s);
    hide Reachable, OrderOf, Rises, Covers;
    var clicked;
    clicked, sort := SortClickAsks(s, column);
    var asked := clicked.jobs[0];
    var sorted := SortCompleted(asked.viewGen, asked.opGen, true, |s.data.table|);
    t := Ran(clicked, asked, sorted, Some(sort), false, MIN_PAGE_ROWS);
    job := t.jobs[0];
  }

  /** The first page of a sort commits it. */
  lemma SortCommits(v: Viewer, job: Job, page: Page)
    requires !Stale(v, job) && v.isPaged && v.sorts.sorting && !v.sorts.recovering
    ensures var (w, jobs) := Handle(v, PageReady(job.viewGen, job.opGen, PageOk(page)), MIN_PAGE_ROWS);
      && jobs == [] && w == v.(sorts := w.sorts, pages := w.pages, firstPagePending := false, counts := w.counts)
      && w.sorts == v.sorts.(committed := v.sorts.pending, pending := None, sorting := false)
      && w.pages.shown.Some? && w.pages.pager.page == v.pages.pendingPage
      && w.pages.pager.total == v.pages.pager.total && w.pages.pager.pageSize == v.pages.pager.pageSize
      && w.counts.sortAuthoritative == v.counts.sortAuthoritative
  {
  }

  /** A sort that succeeds shows the first page of the order that was asked for, with the total known. */
  lemma SortShows(s: System, column: nat) returns (t: System, sort: SortState)
    requires AtRest(s) && s.v.sorts.canSort && !s.latched
    ensures AtRest(t) && t.data == s.data && t.v.sorts == NO_SORTS.(canSort := true, committed := Some(sort))
    ensures Turned(s.data.table, s.v.sorts.committed, column, sort)
    ensures t.v.pages.pager.page == 1 && t.v.pages.pager.total == Some(|s.data.table|)
    ensures t.v.pages.pager.pageSize == s.v.pages.pager.pageSize
    ensures OnDisplay(t.v.pages, OrderOf(s.data.table, Some(sort))) && t.v.counts.sortAuthoritative
  {
    RestIsIdle(s);
    hide Reachable, OrderOf, Turned, Answer, Slice, PageAt, OnDisplay, TokenAt, Handle, GoodData;
    var asked, job;
    asked, job, sort := SortRuns(s, column);
    FirstAnswers(s.data.table, true, Some(sort), job.size);
    var page := Answer(s.data.table, true, Some(sort), FirstPage, job.size).page;
    SortCommits(asked.v, job, page);
    t := Ran(asked, job, PageReady(job.viewGen, job.opGen, PageOk(page)), Some(sort), false, MIN_PAGE_ROWS);
    IsOnDisplay(t);
  }

  /** The worker has been told to open the source again, with an order to restore or none. */
  ghost predicate Reopens(s: System, job: Job, committed: Option<SortState>) {
    && Asked(s, job) && job.OpenJob? && s.announced && s.begun && s.data.hasRowid && !s.v.isCsv
    && s.v.sorts == Sorts(true, true, true, true, committed, None) && !s.v.pages.inFlight
  }

  /** The source is opened again and sorted as before. */
  lemma Restores(s: System, job: Job, committed: Option<SortState>) returns (t: System)
    requires Reopens(s, job, committed)
    ensures AtRest(t) && t.data == s.data && !t.lost && t.order == committed
    ensures t.v == s.v.(sorts := NO_SORTS.(canSort := true, committed := committed))
  {
    hide Reachable;
    var done := OpenCompleted(job.viewGen, job.opGen, true, true);
    t := Ran(s, job, done, None, true, MIN_PAGE_ROWS);
    if committed.Some? {
      var again := t.jobs[0];
      var sorted := SortCompleted(again.viewGen, again.opGen, true, |s.data.table|);
      t := Ran(t, again, sorted, committed, false, MIN_PAGE_ROWS);
    }
  }

  /** The reopen that is asked for after a sort was clicked at rest. */
  ghost predicate Undoes(s: System, t: System, job: Job) {
    && Reopens(t, job, s.v.sorts.committed) && t.data == s.data
    && t.v == s.v.(opGen := t.v.opGen, sorts := t.v.sorts)
  }

  lemma Cancelled(s: System, column: nat) returns (t: System, job: Job)
    requires AtRest(s) && s.v.sorts.canSort
    ensures Undoes(s, t, job)
  {
    RestIsIdle(s);
    hide Reachable, OrderOf, Rises, Covers, GoodData;
    var clicked, sort := SortClickAsks(s, column);
    t, job := CancelAsks(clicked, clicked.jobs[0]);
  }

  /** A cancelled sort is dropped from the queue. */
  lemma CancelAsks(s: System, sort: Job) returns (t: System, job: Job)
    requires Asked(s, sort) && s.v.sorts.sorting && !s.v.sorts.recovering
    ensures Asked(t, job) && job.OpenJob? && t == s.(v := RecoverSort(s.v).0, jobs := [job])
  {
    hide Reachable;
    var cancelled := Acts(s, CancelSort(s.v));
    Extends(s, ClickCancel, cancelled);
    job := cancelled.jobs[1];
    t := cancelled.(jobs := cancelled.jobs[1..]);
    assert t.jobs == [job];
    Extends(cancelled, DropStale, t);
  }

  lemma SortFails(s: System, column: nat) returns (t: System, job: Job)
    requires AtRest(s) && s.v.sorts.canSort
    ensures Undoes(s, t, job)
  {
    RestIsIdle(s);
    hide Reachable, OrderOf, Rises, Covers, GoodData;
    var clicked, sort := SortClickAsks(s, column);
    job := clicked.jobs[0];
    t := Ran(clicked, job, SortCompleted(job.viewGen, job.opGen, false, 0), s.order, false, MIN_PAGE_ROWS);
    job := t.jobs[0];
  }

  /** A sort that is cancelled, or fails, leaves the display and its order as they were. */
  lemma SortUndone(s: System, column: nat, cancelled: bool) returns (t: System)
    requires AtRest(s) && s.v.sorts.canSort
    ensures AtRest(t) && t.data == s.data && t.order == s.v.sorts.committed
    ensures t.v == s.v.(opGen := t.v.opGen, sorts := s.v.sorts)
  {
    var asked, job;
    if cancelled {
      asked, job := Cancelled(s, column);
    } else {
      asked, job := SortFails(s, column);
    }
    t := Restores(asked, job, s.v.sorts.committed);
    RestIsIdle(s);
  }

  /** If the source cannot be opened again, what is on display stays, and no button and no header click is taken
      any more. */
  lemma FailedReopenLocks(s: System, job: Job, committed: Option<SortState>) returns (t: System)
    requires Reopens(s, job, committed)
    ensures AtRest(t) && t.v.pages == s.v.pages && t.v.sorts.committed == committed
    ensures forall b :: OnPageClicked(t.v, b) == (t.v, [])
    ensures forall column :: OnSortClicked(t.v, column) == (t.v, [])
  {
    hide Reachable;
    var done := OpenCompleted(job.viewGen, job.opGen, false, false);
    t := Ran(s, job, done, None, true, MIN_PAGE_ROWS);
  }
}
