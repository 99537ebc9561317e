/** The viewer and its worker as one transition system: a UI state, a worker with a queue of jobs
    and perhaps a parked page request, and a queue of signals on their way back.  The UI may act
    between the start and the end of any job. */
module ViewerProtocol {
  import opened TableSource
  import opened SqlitePaging
  import opened PagerState
  import opened ViewerState

  /** What the view is about.  CSV rows carry their data ordinal as their row id, and `fits` says what
      such a row may look like at a page size. */
  datatype Data = Data(table: seq<TableRow>, hasRowid: bool, fits: (int, int, RowText) -> bool)

  /** The cells of a SQLite row are not modelled. */
  const ANY_TEXT: (int, int, RowText) -> bool := (i, size, text) => true

  datatype Worker = Idle | Busy(job: Job, reply: Signal)

  /** `order` is the active order of the worker's source.  The worker has `begun` the open of the view,
      and has `announced` it once it has succeeded.  It has `latched` a failure once indexing of a CSV
      file has ended for good, and has `lost` the row id of a SQLite table once a reopen has not found
      what the first open had. */
  datatype System = System(v: Viewer, data: Data, jobs: seq<Job>, parked: Option<Job>, worker: Worker,
                           signals: seq<Signal>, order: Option<SortState>, begun: bool, announced: bool,
                           latched: bool, lost: bool)

  ghost predicate GoodData(d: Data, isCsv: bool) {
    && |d.table| + MAX_FETCH_ROWS < INT64_MAX
    && (d.hasRowid ==> Keyed(d.table))
    && (isCsv ==> !d.hasRowid && forall i | 0 <= i < |d.table| :: d.table[i].rowid == i)
  }

  // ---- The worker --------------------------------------------------------------------------

  /** A CSV page: consecutive records from `f` on, exactly `size` or all that are left, but perhaps
      fewer once a failure is latched; none only behind the last one, and the last one is on it or
      before it when it says that nothing follows. */
  ghost predicate CsvPage(d: Data, latched: bool, page: Page, f: int, size: int) {
    && f >= 0 && |page.rows| <= size && page.rows == Slice(d.table, f, |page.rows|)
    && (!latched ==> page.rows == Slice(d.table, f, size))
    && page.token.offset == f && page.token.valid == (page.rows != [])
    && (page.rows == [] ==> f >= |d.table|)
    && (!page.hasMore ==> f + |page.rows| >= |d.table|)
    && |page.texts| == |page.rows| && TextsFit(d, f, size, page.texts)
  }

  /** The cells of the rows from row `lo` on. */
  ghost predicate TextsFit(d: Data, lo: int, size: int, texts: seq<RowText>) {
    forall k | 0 <= k < |texts| :: d.fits(lo + k, size, texts[k])
  }

  /** The answers a source may give to a page query; it may always fail.  A SQLite source without the
      row id pages by offset. */
  ghost predicate Answers(d: Data, isCsv: bool, latched: bool, lost: bool, order: Option<SortState>, q: Query,
                          size: int, r: PageResult) {
    r.PageOk? ==>
      if isCsv then
        && (q.NextPage? || q.PrevPage? ==> q.token.valid)
        && CsvPage(d, latched, r.page, Target(q, size), size)
      else r == Answer(d.table, d.hasRowid && !lost, if lost then None else order, q, size)
  }

  /** What a job may do to the active order and what it may reply; an open may or may not have `found`
      the row id of a table that has one. */
  ghost predicate Executes(d: Data, isCsv: bool, latched: bool, lost: bool, order: Option<SortState>,
                           job: Job, reply: Signal, after: Option<SortState>, found: bool) {
    match job
    case OpenJob(viewGen, opGen) =>
      reply.OpenCompleted? && reply.viewGen == viewGen && reply.opGen == opGen && after == None
      && (reply.ok ==> reply.canSort == (d.hasRowid && found))
    case SortJob(viewGen, opGen, sort) =>
      reply.SortCompleted? && reply.viewGen == viewGen && reply.opGen == opGen
      && (if reply.ok then d.hasRowid && !lost && after == Some(sort) && reply.total == |d.table| else after == order)
    case PageJob(viewGen, opGen, query, size) =>
      reply.PageReady? && reply.viewGen == viewGen && reply.opGen == opGen
      && after == order && Answers(d, isCsv, latched, lost, order, query, size, reply.result)
  }

  predicate Stale(v: Viewer, job: Job) {
    job.viewGen != v.generation || job.opGen != v.opGen
  }

  // ---- Steps -------------------------------------------------------------------------------

  datatype Event =
    | ClickPage(button: Button)
    | ClickSort(column: nat)
    | ClickCancel
    | Load(isCsv: bool, data: Data)
    | Retire
    | CountDone(ok: bool)                        // the separate row count reports
    | Deliver(pageSize: int)                     // the UI handles the oldest signal
    | DropStale                                  // the worker's check before a job
    | Begin(reply: Signal, after: Option<SortState>, found: bool)
    | Park                                       // a CSV page whose range is not indexed yet
    | DropParked
    | Wake(reply: Signal)                        // an index slice answers the parked request
    | Emit
    | Discard                                    // the worker's check before an emit
    | IndexTick(rows: int, isComplete: bool, failed: bool)
    | Latch                                      // indexing of a CSV file ends for good
    | LateSignal(signal: Signal)                 // from the worker of a retired view

  /** The worker is about to say that the open has succeeded. */
  predicate Opens(w: Worker) {
    w.Busy? && w.job.OpenJob? && w.reply.OpenCompleted? && w.reply.ok
  }

  /** The worker takes the oldest job and will reply to it; only a sort leaves a parked request alone.
      What the first open of a view finds decides how its table is read. */
  function Beginning(s: System, reply: Signal, after: Option<SortState>, found: bool): System
    requires s.jobs != []
  {
    s.(jobs := s.jobs[1..], parked := if s.jobs[0].SortJob? then s.parked else None,
       worker := Busy(s.jobs[0], reply), order := after,
       begun := s.begun || s.jobs[0].OpenJob?,
       data := if s.jobs[0].OpenJob? && !s.begun then s.data.(hasRowid := s.data.hasRowid && found) else s.data,
       lost := if s.jobs[0].OpenJob? then s.begun && s.data.hasRowid && !found else s.lost)
  }

  /** The reply is sent. */
  function Emission(s: System): System
    requires s.worker.Busy?
  {
    s.(worker := Idle, signals := s.signals + [s.worker.reply], announced := s.announced || Opens(s.worker))
  }

  /** The UI thread acts.  Retiring the view cuts it off from its worker. */
  function Acts(s: System, r: (Viewer, seq<Job>)): System {
    if r.0.generation != s.v.generation then
      s.(v := r.0, jobs := r.1, parked := None, worker := Idle, order := None, begun := false, announced := false,
         latched := false, lost := false)
    else s.(v := r.0, jobs := s.jobs + r.1)
  }

  function Handle(v: Viewer, signal: Signal, pageSize: int): (Viewer, seq<Job>) {
    match signal
    case OpenCompleted(_, _, _, _) => OnOpenCompleted(v, signal, pageSize)
    case SortCompleted(_, _, _, _) => OnSortCompleted(v, signal)
    case PageReady(_, _, _) => OnPageReady(v, signal)
    case IndexProgress(_, _, _, _) => (OnIndexProgress(v, signal), [])
  }

  ghost predicate Steps(s: System, e: Event, t: System) {
    match e
    case ClickPage(button) => t == Acts(s, OnPageClicked(s.v, button))
    case ClickSort(column) => t == Acts(s, OnSortClicked(s.v, column))
    case ClickCancel => t == Acts(s, CancelSort(s.v))
    case Load(isCsv, data) => GoodData(data, isCsv) && t == Acts(s, LoadSelectedTable(s.v, isCsv)).(data := data)
    case Retire => t == Acts(s, (CancelPending(s.v), []))
    case CountDone(ok) =>
      s.v.counts.requested && !s.v.isCsv && t == Acts(s,
          (OnCountCompleted(s.v, s.v.generation, ok, |s.data.table|), []))
    case Deliver(pageSize) =>
      && s.signals != [] && MIN_PAGE_ROWS <= pageSize <= MAX_PAGE_ROWS
      && t == Acts(s.(signals := s.signals[1..]), Handle(s.v, s.signals[0], pageSize))
    case DropStale =>
      s.worker.Idle? && s.jobs != [] && Stale(s.v, s.jobs[0]) && t == s.(jobs := s.jobs[1..])
    case Begin(reply, after, found) =>
      && s.worker.Idle? && s.jobs != [] && !Stale(s.v, s.jobs[0])
      && Executes(s.data, s.v.isCsv, s.latched, s.lost, s.order, s.jobs[0], reply, after, found)
      && t == Beginning(s, reply, after, found)
    case Park =>
      && s.v.isCsv && s.worker.Idle? && s.jobs != [] && !Stale(s.v, s.jobs[0]) && s.jobs[0].PageJob?
      && t == s.(jobs := s.jobs[1..], parked := Some(s.jobs[0]))
    case DropParked =>
      s.worker.Idle? && s.parked.Some? && Stale(s.v, s.parked.value) && t == s.(parked := None)
    case Wake(reply) =>
      && s.worker.Idle? && s.parked.Some? && !Stale(s.v, s.parked.value) && s.parked.value.PageJob?
      && Executes(s.data, s.v.isCsv, s.latched, s.lost, s.order, s.parked.value, reply, s.order, false)
      && t == s.(parked := None, worker := Busy(s.parked.value, reply))
    case Emit =>
      s.worker.Busy? && t == Emission(s)
    case Discard =>
      s.worker.Busy? && Stale(s.v, s.worker.job) && t == s.(worker := Idle)
    case IndexTick(rows, isComplete, failed) =>
      && s.v.isPaged && s.v.isCsv && s.announced && (isComplete ==> rows == |s.data.table|)
      && t == s.(signals := s.signals + [IndexProgress(s.v.generation, rows, isComplete, failed)])
    case Latch => s.v.isPaged && s.v.isCsv && t == s.(latched := true)
    case LateSignal(signal) =>
      signal.viewGen < s.v.generation && t == s.(signals := s.signals + [signal])
  }

  const START := System(Viewer(0, 0, false, false, false, NO_SORTS, NO_PAGES, NO_COUNTS),
                         Data([], false, ANY_TEXT), [], None, Idle, [], None, false, false, false, false)

  // ---- The invariant -----------------------------------------------------------------------

  /** The one request the viewer waits for, and how far it has come. */
  datatype Place = Queued | Parked | Running | Emitted(i: nat)
  datatype Current = Current(job: Job, at: Place)

  predicate Older(v: Viewer, viewGen: nat, opGen: nat) {
    viewGen < v.generation || (viewGen == v.generation && opGen <= v.opGen)
  }

  predicate StaleSignal(v: Viewer, signal: Signal) {
    signal.IndexProgress? || signal.viewGen != v.generation || signal.opGen != v.opGen
  }

  /** The counters only grow. */
  ghost predicate Bounded(s: System) {
    && (forall i | 0 <= i < |s.jobs| :: Older(s.v, s.jobs[i].viewGen, s.jobs[i].opGen))
    && (s.parked.Some? ==> Older(s.v, s.parked.value.viewGen, s.parked.value.opGen))
    && (s.worker.Busy? ==> Older(s.v, s.worker.job.viewGen, s.worker.job.opGen))
    && (forall i | 0 <= i < |s.signals| ::
          s.signals[i].viewGen <= s.v.generation && (s.signals[i].IndexProgress? || Older(s.v, s.signals[i].viewGen,
              s.signals[i].opGen)))
  }

  predicate RepliesTo(reply: Signal, job: Job) {
    !reply.IndexProgress? && reply.viewGen == job.viewGen && reply.opGen == job.opGen
  }

  /** Everything on its way is stale, except the current request where it is. */
  ghost predicate OneCurrent(s: System, c: Option<Current>) {
    && (forall i | 0 <= i < |s.jobs| ::
         Stale(s.v, s.jobs[i]) || (i == |s.jobs| - 1 && c == Some(Current(s.jobs[i], Queued))))
    && (s.parked.Some? ==> Stale(s.v, s.parked.value) || c == Some(Current(s.parked.value, Parked)))
    && (s.worker.Busy? ==> Stale(s.v, s.worker.job) || c == Some(Current(s.worker.job, Running)))
    && (s.worker.Busy? ==> RepliesTo(s.worker.reply, s.worker.job))
    && (forall i | 0 <= i < |s.signals| :: StaleSignal(s.v, s.signals[i]) || (c.Some? && c.value.at == Emitted(i)))
    && (c.Some? ==> !Stale(s.v, c.value.job) && Located(s, c.value))
  }

  ghost predicate Located(s: System, c: Current) {
    match c.at
    case Queued => s.jobs != [] && s.jobs[|s.jobs| - 1] == c.job
    case Parked => s.parked == Some(c.job) && c.job.PageJob?
    case Running => s.worker.Busy? && s.worker.job == c.job
    case Emitted(i) => i < |s.signals| && !StaleSignal(s.v, s.signals[i])
  }

  /** What the viewer waits for, given its flags. */
  ghost predicate Awaits(v: Viewer, d: Data, adrift: bool, c: Option<Current>) {
    if !v.isPaged then c == None && !v.sorts.sorting && !v.pages.inFlight
    else if c == None then !v.sorts.sorting && !v.pages.inFlight
    else match c.value.job
      case OpenJob(_, _) => if v.sorts.recovering then !v.pages.inFlight else Opening(v)
      case SortJob(_, _, sort) =>
        && v.sorts.sorting && (v.sorts.recovering ==> !v.pages.inFlight)
        && Some(sort) == (if v.sorts.recovering then v.sorts.committed else v.sorts.pending)
      case PageJob(_, _, query, size) =>
        && v.pages.inFlight && !v.sorts.recovering && size == v.pages.pager.pageSize
        && (v.sorts.sorting ==> query == FirstPage && v.pages.pager.total.Some?)
        && QueryFits(v, d, adrift, query)
  }

  /** The first open of the view is under way. */
  ghost predicate Opening(v: Viewer) {
    v.pages == NO_PAGES && v.sorts == NO_SORTS && v.counts == NO_COUNTS && v.firstPagePending
  }

  ghost predicate QueryFits(v: Viewer, d: Data, adrift: bool, q: Query) {
    var p := v.pages;
    match q
    case FirstPage => p.pendingPage == 1 && !p.pendingFromPrev
    case NextPage(token) =>
      && token == p.token && p.pendingPage == p.pager.page + 1 && !p.pendingFromPrev
      && (p.shown == None ==> !token.valid)
      && (!v.isCsv && p.shown.Some? && !adrift ==> p.pager.page * p.pager.pageSize < |d.table|)
    case PrevPage(token) => token == p.token && p.pendingPage == p.pager.page - 1 >= 1 && p.pendingFromPrev
    case LastPage(total) =>
      p.pager.total == Some(total) && p.pendingPage == p.pager.Pages() > p.pager.page && !p.pendingFromPrev
  }

  /** The sort flags fit together, and the worker's order is the committed one whenever it matters. */
  ghost predicate OrderKept(s: System, c: Option<Current>) {
    var v := s.v.sorts;
    && (v.recovering ==> v.sorting && v.pending == None)
    && (v.sorting && !v.recovering ==> v.pending.Some?)
    && (!v.sorting ==> v.pending == None)
    && (v.canSort && s.v.isPaged ==> s.data.hasRowid && v.orderValid)
    && (v.committed.Some? && s.v.isPaged ==> s.data.hasRowid)
    && (v.sorting ==> v.orderValid && s.data.hasRowid && s.v.isPaged)
    && (s.v.isPaged && !v.sorting && v.orderValid ==> s.order == v.committed)
    && (c.Some? && c.value.job.PageJob? ==> v.orderValid && s.order == if v.sorting then v.pending else v.committed)
    && (s.order.Some? ==> !s.lost)
    && (s.lost && s.v.isPaged ==>
          s.data.hasRowid && (v.recovering || !v.orderValid || (!v.sorting && v.committed == None && !v.canSort)))
  }

  /** A reopen without a sort to restore has lost the row id: the viewer goes on with tokens that its
      source reads differently. */
  predicate Adrift(s: System) {
    s.v.isPaged && s.lost && !s.v.sorts.sorting && s.v.sorts.orderValid
  }

  /** What is known of the reply once the current request has been executed. */
  ghost predicate Executed(s: System, c: Current) {
    match c.at
    case Queued => true
    case Parked => true
    case Running => s.worker.Busy? && ReplyFits(s, c.job, s.worker.reply)
    case Emitted(i) => i < |s.signals| && ReplyFits(s, c.job, s.signals[i])
  }

  ghost predicate ReplyFits(s: System, job: Job, reply: Signal) {
    match job
    case OpenJob(_, _) => reply.OpenCompleted? && (reply.ok ==>
        s.order == None && reply.canSort == (s.data.hasRowid && !s.lost))
    case SortJob(_, _, sort) => reply.SortCompleted? && (reply.ok ==>
        s.order == Some(sort) && reply.total == |s.data.table| && s.data.hasRowid && !s.lost)
    case PageJob(_, _, query, size) =>
      reply.PageReady? && Answers(s.data, s.v.isCsv, s.latched, s.lost, s.order, query, size, reply.result)
  }

  /** A total from indexing is only announced behind the completion of the open. */
  ghost predicate ProgressFollowsOpen(s: System, c: Option<Current>) {
    c.Some? && c.value.job.OpenJob? && !s.v.sorts.recovering ==>
      && (!c.value.at.Emitted? ==> !s.announced && (s.worker.Busy? ==> c.value.at.Running?))
      && (c.value.at.Queued? ==> !s.begun)
      && forall i | 0 <= i < |s.signals| && s.signals[i].IndexProgress? && s.signals[i].viewGen == s.v.generation ::
           c.value.at.Emitted? && c.value.at.i < i
  }

  /** Until the open has been announced the viewer waits for it. */
  ghost predicate OpenComesFirst(s: System, c: Option<Current>) {
    && (s.announced ==> s.begun)
    && (s.worker.Busy? && s.worker.job.OpenJob? ==> s.begun)
    && (s.v.isPaged && !s.announced ==>
      && c.Some? && c.value.job.OpenJob? && !s.v.sorts.recovering
      && (c.value.at.Emitted? && c.value.at.i < |s.signals| && s.signals[c.value.at.i].OpenCompleted? ==>
           !s.signals[c.value.at.i].ok))
  }

  ghost predicate TotalsExact(s: System) {
    forall i | 0 <= i < |s.signals| && s.signals[i].IndexProgress? && s.signals[i].viewGen == s.v.generation ::
      s.signals[i].isComplete ==> s.signals[i].rows == |s.data.table|
  }

  // ---- What is shown -----------------------------------------------------------------------

  /** The rows on display are those of the given page of the committed order; the token and the row
      labels are those of the same page.  Only a latched failure may have cut a CSV page short. */
  ghost predicate ShowsPage(d: Data, isCsv: bool, latched: bool, committed: Option<SortState>,
                            page: int, size: nat, token: PageToken, shown: Shown) {
    var lo := (page - 1) * size;
    && size > 0 && 0 <= lo && (lo < |d.table| || lo == |d.table| == 0)
    && shown.rowOffset == (if shown.rows == [] then 0 else lo)
    && if isCsv then
         && |shown.rows| <= size && shown.rows == Slice(d.table, lo, |shown.rows|)
         && (!latched ==> shown.rows == Slice(d.table, lo, size))
         && token.offset == lo && token.valid == (shown.rows != [])
         && |shown.texts| == |shown.rows| && TextsFit(d, lo, size, shown.texts)
       else
         && shown.rows == Slice(OrderOf(d.table, committed), lo, size)
         && TokenAt(token, OrderOf(d.table, committed), ModeOf(d.hasRowid, committed), lo, size)
  }

  ghost predicate RowsRemain(p: PagerState, d: Data) {
    p.page * p.pageSize < |d.table|
  }

  /** Without a total the pager relies on what the last page said. */
  ghost predicate NextKnown(d: Data, isCsv: bool, p: PagerState) {
    p.total == None ==>
      && (RowsRemain(p, d) ==> p.hasMore || p.arrivedFromPrev)
      && (!isCsv && (p.hasMore || p.arrivedFromPrev) ==> RowsRemain(p, d))
  }

  /** What an adrift view still knows: the rows are those of the page or those its token starts with. */
  ghost predicate Strays(d: Data, p: Pages)
    requires p.shown.Some?
  {
    && p.token.offset >= 0 && p.pager.pageSize > 0
    && TokenAt(p.token, d.table, Offset, p.token.offset, p.pager.pageSize)
    && (ShowsPage(d, false, false, None, p.pager.page, p.pager.pageSize, p.token, p.shown.value)
        || p.shown.value.rows == Slice(d.table, p.token.offset, p.pager.pageSize))
  }

  ghost predicate Content(v: Viewer, d: Data, latched: bool, adrift: bool) {
    var p := v.pages;
    v.isPaged ==>
      && GoodData(d, v.isCsv)
      && (p.pager.total.Some? ==> p.pager.total.value == |d.table|)
      && (v.sorts.committed.Some? ==> p.pager.total.Some?)
      && MIN_PAGE_ROWS <= p.pager.pageSize <= MAX_PAGE_ROWS && p.pager.page >= 1
      && v.firstPagePending == (p.shown == None)
      && (if p.shown == None then p.pager.page == 1 && p.token == NO_TOKEN && !p.pager.arrivedFromPrev
          else if adrift then Strays(d, p)
          else
            && ShowsPage(d, v.isCsv, latched, v.sorts.committed, p.pager.page, p.pager.pageSize, p.token, p.shown.value)
            && NextKnown(d, v.isCsv, p.pager))
  }

  /** What is on its way. */
  ghost predicate Traffic(s: System, c: Option<Current>) {
    && Bounded(s) && OneCurrent(s, c) && (c.Some? ==> Executed(s, c.value))
    && ProgressFollowsOpen(s, c) && OpenComesFirst(s, c) && TotalsExact(s)
  }

  /** What the viewer makes of it. */
  ghost predicate Screen(s: System, c: Option<Current>) {
    && Awaits(s.v, s.data, Adrift(s), c) && OrderKept(s, c)
    && Content(s.v, s.data, s.latched, Adrift(s))
  }

  ghost predicate InvAt(s: System, c: Option<Current>) {
    Traffic(s, c) && Screen(s, c)
  }

  ghost predicate Inv(s: System) {
    exists c: Option<Current> :: InvAt(s, c)
  }

  // ---- Every step keeps the invariant ------------------------------------------------------

  lemma StartHolds()
    ensures Inv(START)
  {
    assert InvAt(START, None);
  }

  /** What holds of the queues whatever the viewer waits for. */
  ghost predicate Carried(s: System) {
    && Bounded(s) && (s.worker.Busy? ==> RepliesTo(s.worker.reply, s.worker.job)) && TotalsExact(s)
    && s.announced && s.begun
  }

  lemma Carries(s: System, c: Option<Current>)
    requires InvAt(s, c) && s.v.isPaged && !Opening(s.v)
    ensures Carried(s)
  {
    hide Content, QueryFits, Executed;
  }

  /** A newer request makes everything on its way stale. */
  lemma Supersedes(s: System, v: Viewer, job: Job)
    requires Carried(s) && v.generation == s.v.generation && v.opGen == s.v.opGen + 1
    requires job.viewGen == v.generation && job.opGen == v.opGen && (job.OpenJob? ==> v.sorts.recovering)
    ensures Traffic(Acts(s, (v, [job])), Some(Current(job, Queued)))
  {
  }

  lemma SortClicked(s: System, c: Option<Current>, column: nat)
    requires InvAt(s, c)
    ensures Inv(Acts(s, OnSortClicked(s.v, column)))
  {
    hide Traffic, Content;
    var (v, jobs) := OnSortClicked(s.v, column);
    var t := Acts(s, (v, jobs));
    if jobs == [] {
      assert t == s;
      assert InvAt(t, c);
    } else {
      Carries(s, c);
      SortingContent(s, c, v);
      Supersedes(s, v, jobs[0]);
      assert InvAt(t, Some(Current(jobs[0], Queued)));
    }
  }

  /** Neither a sort nor its cancellation touches the page on display. */
  lemma SortingContent(s: System, c: Option<Current>, v: Viewer)
    requires InvAt(s, c) && !Adrift(s)
    requires v == s.v.(opGen := v.opGen, sorts := v.sorts, pages := s.v.pages.(inFlight := v.pages.inFlight))
    requires v.sorts.committed == s.v.sorts.committed
    ensures Content(v, s.data, s.latched, false)
  {
    hide Traffic, ShowsPage, GoodData, RowsRemain;
  }

  lemma CancelClicked(s: System, c: Option<Current>)
    requires InvAt(s, c)
    ensures Inv(Acts(s, CancelSort(s.v)))
  {
    hide Traffic, Content;
    var (v, jobs) := CancelSort(s.v);
    var t := Acts(s, (v, jobs));
    if jobs == [] {
      assert t == s;
      assert InvAt(t, c);
    } else {
      Carries(s, c);
      SortingContent(s, c, v);
      Supersedes(s, v, jobs[0]);
      assert InvAt(t, Some(Current(jobs[0], Queued)));
    }
  }

  lemma PageClicked(s: System, c: Option<Current>, button: Button)
    requires InvAt(s, c)
    ensures Inv(Acts(s, OnPageClicked(s.v, button)))
  {
    hide Traffic, ShowsPage, GoodData;
    var (v, jobs) := OnPageClicked(s.v, button);
    var t := Acts(s, (v, jobs));
    if jobs == [] {
      assert t == s;
      assert InvAt(t, c);
    } else {
      Carries(s, c);
      Supersedes(s, v, jobs[0]);
      var p := s.v.pages.pager;
      if p.total.Some? {
        NextIffRowsRemain(p);
      }
      assert InvAt(t, Some(Current(jobs[0], Queued)));
    }
  }

  /** Leaving a view leaves nothing current. */
  lemma Retires(s: System, c: Option<Current>)
    requires InvAt(s, c)
    ensures Inv(Acts(s, (CancelPending(s.v), [])))
  {
    assert InvAt(Acts(s, (CancelPending(s.v), [])), None);
  }

  lemma Loads(s: System, c: Option<Current>, isCsv: bool, data: Data)
    requires InvAt(s, c) && GoodData(data, isCsv)
    ensures Inv(Acts(s, LoadSelectedTable(s.v, isCsv)).(data := data))
  {
    var t := Acts(s, LoadSelectedTable(s.v, isCsv)).(data := data);
    assert InvAt(t, Some(Current(t.jobs[0], Queued)));
  }

  /** A total that arrives changes neither the request nor the page on display. */
  lemma LearnsTotal(s: System, c: Option<Current>, v: Viewer)
    requires InvAt(s, c) && s.v.isPaged && !(c.Some? && c.value.job.OpenJob? && Opening(s.v))
    requires v == s.v.(pages := s.v.pages.(pager := v.pages.pager), counts := v.counts)
    requires v.pages.pager == s.v.pages.pager.(total := Some(|s.data.table|), hasMore := v.pages.pager.hasMore)
    ensures InvAt(s.(v := v), c)
  {
    hide Bounded, OneCurrent, OrderKept, Executed, ProgressFollowsOpen, TotalsExact, ShowsPage, GoodData, RowsRemain;
    LearnsNothingElse(s, c, v);
  }

  lemma LearnsNothingElse(s: System, c: Option<Current>, v: Viewer)
    requires v == s.v.(pages := s.v.pages.(pager := v.pages.pager), counts := v.counts)
    requires Bounded(s) && OneCurrent(s, c) && OrderKept(s, c) && (c.Some? ==> Executed(s, c.value))
    requires ProgressFollowsOpen(s, c) && TotalsExact(s)
    ensures var t := s.(v := v);
      Bounded(t) && OneCurrent(t, c) && OrderKept(t, c) && (c.Some? ==>
          Executed(t, c.value)) && ProgressFollowsOpen(t, c) && TotalsExact(t)
  {
    hide Answers;
  }

  lemma Counted(s: System, c: Option<Current>, ok: bool)
    requires InvAt(s, c) && s.v.counts.requested && !s.v.isCsv
    ensures Inv(Acts(s, (OnCountCompleted(s.v, s.v.generation, ok, |s.data.table|), [])))
  {
    hide InvAt;
    var v := OnCountCompleted(s.v, s.v.generation, ok, |s.data.table|);
    assert Acts(s, (v, [])) == s.(v := v);
    if v.pages == s.v.pages {
      LearnsNoTotal(s, c, v);
    } else {
      CountIsAwaited(s, c);
      LearnsTotal(s, c, v);
    }
    assert InvAt(s.(v := v), c);
  }

  /** A count that fails or comes too late changes nothing. */
  lemma LearnsNoTotal(s: System, c: Option<Current>, v: Viewer)
    requires InvAt(s, c) && s.v.counts.requested && v == s.v.(counts := v.counts)
    ensures InvAt(s.(v := v), c)
  {
    hide Bounded, OneCurrent, OrderKept, Executed, ProgressFollowsOpen, TotalsExact, ShowsPage, GoodData, RowsRemain;
    LearnsNothingElse(s, c, v);
  }

  lemma CountIsAwaited(s: System, c: Option<Current>)
    requires InvAt(s, c) && s.v.counts.requested
    ensures !(c.Some? && c.value.job.OpenJob? && Opening(s.v))
  {
  }

  // ---- The worker --------------------------------------------------------------------------

  /** The queues are nothing to the screen. */
  lemma SameScreen(s: System, c: Option<Current>, t: System, c': Option<Current>)
    requires Screen(s, c)
    requires t.v == s.v && t.data == s.data && t.order == s.order && t.latched == s.latched && t.lost == s.lost
    requires c'.Some? == c.Some? && (c.Some? ==> c'.value.job == c.value.job)
    ensures Screen(t, c')
  {
    hide Content, QueryFits, Opening;
  }

  lemma Drops(s: System, c: Option<Current>)
    requires InvAt(s, c) && s.worker.Idle? && s.jobs != [] && Stale(s.v, s.jobs[0])
    ensures Inv(s.(jobs := s.jobs[1..]))
  {
    hide Screen, Answers;
    SameScreen(s, c, s.(jobs := s.jobs[1..]), c);
    assert InvAt(s.(jobs := s.jobs[1..]), c);
  }

  /** Only the current job passes the check at its start. */
  lemma Begins(s: System, c: Option<Current>, reply: Signal, after: Option<SortState>, found: bool)
    requires InvAt(s, c) && s.worker.Idle? && s.jobs != [] && !Stale(s.v, s.jobs[0])
    requires Executes(s.data, s.v.isCsv, s.latched, s.lost, s.order, s.jobs[0], reply, after, found)
    ensures Inv(Beginning(s, reply, after, found))
  {
    hide Content, Answers, NextKnown, ShowsPage;
    var t := Beginning(s, reply, after, found);
    if s.jobs[0].OpenJob? && !s.begun {
      OpeningContent(s.v, s.data, s.latched, Adrift(s), found);
    }
    assert c == Some(Current(s.jobs[0], Queued));
    assert InvAt(t, Some(Current(s.jobs[0], Running)));
  }

  /** Before the first open nothing is on display. */
  lemma OpeningContent(v: Viewer, d: Data, latched: bool, adrift: bool, found: bool)
    requires Content(v, d, latched, adrift)
    ensures Opening(v) ==> Content(v, d.(hasRowid := d.hasRowid && found), latched, false)
  {
  }

  lemma Parks(s: System, c: Option<Current>)
    requires InvAt(s, c) && s.worker.Idle? && s.jobs != [] && !Stale(s.v, s.jobs[0]) && s.jobs[0].PageJob?
    ensures Inv(s.(jobs := s.jobs[1..], parked := Some(s.jobs[0])))
  {
    hide Screen, Answers;
    var t := s.(jobs := s.jobs[1..], parked := Some(s.jobs[0]));
    assert c == Some(Current(s.jobs[0], Queued));
    SameScreen(s, c, t, Some(Current(s.jobs[0], Parked)));
    assert InvAt(t, Some(Current(s.jobs[0], Parked)));
  }

  lemma Wakes(s: System, c: Option<Current>, reply: Signal)
    requires InvAt(s, c) && s.worker.Idle? && s.parked.Some? && !Stale(s.v, s.parked.value) && s.parked.value.PageJob?
    requires Executes(s.data, s.v.isCsv, s.latched, s.lost, s.order, s.parked.value, reply, s.order, false)
    ensures Inv(s.(parked := None, worker := Busy(s.parked.value, reply)))
  {
    hide Screen, Answers;
    var t := s.(parked := None, worker := Busy(s.parked.value, reply));
    SameScreen(s, c, t, Some(Current(s.parked.value, Running)));
    assert InvAt(t, Some(Current(s.parked.value, Running)));
  }

  lemma DropsParked(s: System, c: Option<Current>)
    requires InvAt(s, c) && s.parked.Some? && Stale(s.v, s.parked.value)
    ensures Inv(s.(parked := None))
  {
    hide Screen, Answers;
    SameScreen(s, c, s.(parked := None), c);
    assert InvAt(s.(parked := None), c);
  }

  lemma Emits(s: System, c: Option<Current>)
    requires InvAt(s, c) && s.worker.Busy?
    ensures Inv(Emission(s))
  {
    hide Screen, Answers;
    var t := Emission(s);
    if c == Some(Current(s.worker.job, Running)) {
      SameScreen(s, c, t, Some(Current(s.worker.job, Emitted(|s.signals|))));
      assert InvAt(t, Some(Current(s.worker.job, Emitted(|s.signals|))));
    } else {
      SameScreen(s, c, t, c);
      assert InvAt(t, c);
    }
  }

  lemma Discards(s: System, c: Option<Current>)
    requires InvAt(s, c) && s.worker.Busy? && Stale(s.v, s.worker.job)
    ensures Inv(s.(worker := Idle))
  {
    hide Screen, Answers;
    SameScreen(s, c, s.(worker := Idle), c);
    assert InvAt(s.(worker := Idle), c);
  }

  lemma Ticks(s: System, c: Option<Current>, rows: int, isComplete: bool, failed: bool)
    requires InvAt(s, c) && s.v.isPaged && s.announced && (isComplete ==> rows == |s.data.table|)
    ensures Inv(s.(signals := s.signals + [IndexProgress(s.v.generation, rows, isComplete, failed)]))
  {
    hide Screen, Answers;
    var t := s.(signals := s.signals + [IndexProgress(s.v.generation, rows, isComplete, failed)]);
    SameScreen(s, c, t, c);
    assert InvAt(t, c);
  }

  /** What was exact stays on display. */
  lemma Latches(s: System, c: Option<Current>)
    requires InvAt(s, c)
    ensures Inv(s.(latched := true))
  {
    hide Bounded, OneCurrent, Awaits, OrderKept, ProgressFollowsOpen, TotalsExact, Content, Answers;
    var t := s.(latched := true);
    LatchedContent(s.v, s.data, s.latched, Adrift(s));
    LatchedTraffic(s, c);
    assert InvAt(t, c);
  }

  lemma LatchedContent(v: Viewer, d: Data, latched: bool, adrift: bool)
    requires Content(v, d, latched, adrift)
    ensures Content(v, d, true, adrift)
  {
    hide GoodData, RowsRemain, TokenAt, Strays;
  }

  lemma LatchedTraffic(s: System, c: Option<Current>)
    requires InvAt(s, c)
    ensures Traffic(s.(latched := true), c)
    ensures Awaits(s.v, s.data, Adrift(s), c) && OrderKept(s.(latched := true), c)
  {
    hide Content;
  }

  lemma Lates(s: System, c: Option<Current>, signal: Signal)
    requires InvAt(s, c) && signal.viewGen < s.v.generation
    ensures Inv(s.(signals := s.signals + [signal]))
  {
    hide Screen, Answers;
    SameScreen(s, c, s.(signals := s.signals + [signal]), c);
    assert InvAt(s.(signals := s.signals + [signal]), c);
  }

  // ---- The UI handles a signal -------------------------------------------------------------

  function Popped(s: System): System
    requires s.signals != []
  {
    s.(signals := s.signals[1..])
  }

  function Shifted(c: Option<Current>): Option<Current> {
    if c.Some? && c.value.at.Emitted? && c.value.at.i > 0 then Some(c.value.(at := Emitted(c.value.at.i - 1))) else c
  }

  ghost predicate HeadIsCurrent(s: System, c: Option<Current>) {
    s.signals != [] && c.Some? && c.value.at == Emitted(0)
  }

  /** A signal nobody waits for is taken off the queue. */
  lemma PopsOther(s: System, c: Option<Current>)
    requires InvAt(s, c) && s.signals != [] && StaleSignal(s.v, s.signals[0])
    ensures InvAt(Popped(s), Shifted(c))
  {
    hide Screen, Answers;
    SameScreen(s, c, Popped(s), Shifted(c));
  }

  /** Behind the awaited reply nothing is current. */
  lemma PopsCurrent(s: System, c: Option<Current>)
    requires InvAt(s, c) && HeadIsCurrent(s, c)
    ensures s.v.isPaged && Accepts(s.v, s.signals[0].viewGen, s.signals[0].opGen)
    ensures ReplyFits(s, c.value.job, s.signals[0])
    ensures OneCurrent(Popped(s), None) && Bounded(Popped(s)) && TotalsExact(Popped(s))
    ensures !(s.signals[0].OpenCompleted? && !s.signals[0].ok) ==> Carried(Popped(s))
    ensures s.v.sorts.recovering ==> Carried(Popped(s))
  {
    hide Content, Answers, QueryFits;
  }

  /** The handler goes on with a request of its own. */
  lemma GoesOn(s: System, v: Viewer, job: Job)
    requires Carried(s) && OneCurrent(s, None)
    requires v.generation == s.v.generation == job.viewGen && v.opGen == s.v.opGen == job.opGen && !job.OpenJob?
    ensures Traffic(Acts(s, (v, [job])), Some(Current(job, Queued)))
  {
  }

  /** The handler ends the wait. */
  lemma Rests(s: System, v: Viewer)
    requires Carried(s) && OneCurrent(s, None)
    requires v.generation == s.v.generation && v.opGen == s.v.opGen
    ensures Traffic(Acts(s, (v, [])), None)
  {
  }

  /** A signal is either the awaited reply or one nobody waits for. */
  lemma HeadIsEither(s: System, c: Option<Current>)
    requires InvAt(s, c) && s.signals != []
    ensures HeadIsCurrent(s, c) <==> !StaleSignal(s.v, s.signals[0])
  {
    hide Content, Answers;
  }

  lemma DeliversStale(s: System, c: Option<Current>, pageSize: int)
    requires InvAt(s, c) && s.signals != [] && StaleSignal(s.v, s.signals[0]) && !s.signals[0].IndexProgress?
    ensures Inv(Acts(Popped(s), Handle(s.v, s.signals[0], pageSize)))
  {
    hide InvAt;
    PopsOther(s, c);
    assert Acts(Popped(s), Handle(s.v, s.signals[0], pageSize)) == Popped(s);
  }

  lemma DeliversProgress(s: System, c: Option<Current>)
    requires InvAt(s, c) && s.signals != [] && s.signals[0].IndexProgress?
    ensures Inv(Acts(Popped(s), (OnIndexProgress(s.v, s.signals[0]), [])))
  {
    hide InvAt, Opening;
    PopsOther(s, c);
    var v := OnIndexProgress(s.v, s.signals[0]);
    assert Acts(Popped(s), (v, [])) == Popped(s).(v := v);
    if v.pages != s.v.pages {
      TotalIsExact(s, c);
      LearnsTotal(Popped(s), Shifted(c), v);
    }
    assert InvAt(Popped(s).(v := v), Shifted(c));
  }

  lemma TotalIsExact(s: System, c: Option<Current>)
    requires InvAt(s, c) && s.signals != [] && s.signals[0].IndexProgress? && s.signals[0].viewGen == s.v.generation
    requires s.signals[0].isComplete
    requires s.v.isPaged
    ensures s.signals[0].rows == |s.data.table| && !(c.Some? && c.value.job.OpenJob? && Opening(s.v))
  {
  }

  lemma DeliversOpen(s: System, c: Option<Current>, pageSize: int)
    requires InvAt(s, c) && HeadIsCurrent(s, c) && s.signals[0].OpenCompleted?
    requires MIN_PAGE_ROWS <= pageSize <= MAX_PAGE_ROWS
    ensures Inv(Acts(Popped(s), OnOpenCompleted(s.v, s.signals[0], pageSize)))
  {
    hide InvAt;
    if s.v.sorts.recovering {
      DeliversReopen(s, c, pageSize);
    } else {
      DeliversFirstOpen(s, c, pageSize);
    }
  }

  lemma DeliversFirstOpen(s: System, c: Option<Current>, pageSize: int)
    requires InvAt(s, c) && HeadIsCurrent(s, c) && s.signals[0].OpenCompleted? && !s.v.sorts.recovering
    requires MIN_PAGE_ROWS <= pageSize <= MAX_PAGE_ROWS
    ensures Inv(Acts(Popped(s), OnOpenCompleted(s.v, s.signals[0], pageSize)))
  {
    hide Traffic, Answers, ShowsPage, GoodData, RowsRemain, Carried, Strays, NextKnown;
    PopsCurrent(s, c);
    var (v, jobs) := OnOpenCompleted(s.v, s.signals[0], pageSize);
    var t := Acts(Popped(s), (v, jobs));
    if jobs != [] {
      GoesOn(Popped(s), v, jobs[0]);
      assert InvAt(t, Some(Current(jobs[0], Queued)));
    } else {
      Leaves(Popped(s), v);
      assert InvAt(t, None);
    }
  }

  lemma DeliversReopen(s: System, c: Option<Current>, pageSize: int)
    requires InvAt(s, c) && HeadIsCurrent(s, c) && s.signals[0].OpenCompleted? && s.v.sorts.recovering
    ensures Inv(Acts(Popped(s), OnOpenCompleted(s.v, s.signals[0], pageSize)))
  {
    hide Traffic, Answers, Carried, Content, Opened, Awaits, OrderKept, OnOpenCompleted;
    PopsCurrent(s, c);
    var (v, jobs) := OnOpenCompleted(s.v, s.signals[0], pageSize);
    var t := Acts(Popped(s), (v, jobs));
    ReopenScreen(s, c, v, jobs, pageSize);
    ReopenContent(s, c, v);
    var next := if jobs == [] then None else Some(Current(jobs[0], Queued));
    assert Screen(s.(v := v), next);
    SameScreen(s.(v := v), next, t, next);
    if jobs != [] {
      assert jobs == [jobs[0]];
      GoesOn(Popped(s), v, jobs[0]);
    } else {
      Rests(Popped(s), v);
    }
    assert InvAt(t, next);
  }

  /** What the viewer waits for behind a reopen. */
  lemma ReopenScreen(s: System, c: Option<Current>, v: Viewer, jobs: seq<Job>, pageSize: int)
    requires InvAt(s, c) && HeadIsCurrent(s, c) && s.signals[0].OpenCompleted? && s.v.sorts.recovering
    requires (v, jobs) == OnOpenCompleted(s.v, s.signals[0], pageSize)
    requires s.v.isPaged && Accepts(s.v, s.signals[0].viewGen, s.signals[0].opGen)
    requires ReplyFits(s, c.value.job, s.signals[0])
    ensures v == s.v.(sorts := v.sorts) && v.sorts.committed == s.v.sorts.committed && |jobs| <= 1
    ensures jobs != [] ==> jobs[0].SortJob? && jobs[0].viewGen == v.generation && jobs[0].opGen == v.opGen
    ensures var t, next := s.(v := v), if jobs == [] then None else Some(Current(jobs[0], Queued));
      && Awaits(v, s.data, Adrift(t), next) && OrderKept(t, next) && (Adrift(t) ==> s.lost && v.sorts.committed == None)
  {
    hide Traffic, Content, Opened, Answers, QueryFits;
  }

  /** A reopen leaves the page on display alone; without the row id its token has another meaning. */
  lemma ReopenContent(s: System, c: Option<Current>, v: Viewer)
    requires InvAt(s, c) && s.v.sorts.recovering
    requires v == s.v.(sorts := v.sorts) && v.sorts.committed == s.v.sorts.committed
    ensures Content(v, s.data, s.latched, false)
    ensures s.lost && v.sorts.committed == None ==> Content(v, s.data, s.latched, true)
  {
    hide Traffic, ShowsPage, GoodData, RowsRemain, TokenAt;
    if s.lost {
      NotCsv(s, c);
      KeysetStrays(s.v, s.data, s.latched);
    }
  }

  /** A page of the unsorted table is still right when the row id is lost, and its token then means
      the first row. */
  lemma KeysetStrays(v: Viewer, d: Data, latched: bool)
    requires v.isPaged && !v.isCsv && d.hasRowid && Content(v, d, latched, false)
    ensures v.sorts.committed == None && v.pages.shown.Some? ==> Strays(d, v.pages)
  {
  }

  /** The handler leaves the view. */
  lemma Leaves(s: System, v: Viewer)
    requires Bounded(s) && OneCurrent(s, None) && v.generation > s.v.generation && !v.isPaged
    ensures Traffic(Acts(s, (v, [])), None)
  {
  }

  lemma DeliversSort(s: System, c: Option<Current>)
    requires InvAt(s, c) && HeadIsCurrent(s, c) && s.signals[0].SortCompleted?
    ensures Inv(Acts(Popped(s), OnSortCompleted(s.v, s.signals[0])))
  {
    hide Traffic, Screen, Answers, Carried, OnSortCompleted, Adrift;
    PopsCurrent(s, c);
    var (v, jobs) := OnSortCompleted(s.v, s.signals[0]);
    var t := Acts(Popped(s), (v, jobs));
    var next := if jobs == [] then None else Some(Current(jobs[0], Queued));
    SortScreen(s, c, v, jobs);
    SameScreen(s.(v := v), next, t, next);
    if jobs == [] {
      Rests(Popped(s), v);
    } else {
      assert jobs == [jobs[0]];
      if v.opGen == s.v.opGen {
        GoesOn(Popped(s), v, jobs[0]);
      } else {
        Supersedes(Popped(s), v, jobs[0]);
      }
    }
    assert InvAt(t, next);
  }

  /** What the viewer waits for behind a sort, and what it shows. */
  lemma SortScreen(s: System, c: Option<Current>, v: Viewer, jobs: seq<Job>)
    requires InvAt(s, c) && HeadIsCurrent(s, c) && s.signals[0].SortCompleted?
    requires s.v.isPaged && Accepts(s.v, s.signals[0].viewGen, s.signals[0].opGen)
    requires ReplyFits(s, c.value.job, s.signals[0])
    requires (v, jobs) == OnSortCompleted(s.v, s.signals[0])
    ensures v.generation == s.v.generation && s.v.opGen <= v.opGen <= s.v.opGen + 1 && |jobs| <= 1
    ensures jobs == [] ==> v.opGen == s.v.opGen
    ensures jobs != [] ==>
      && jobs[0].viewGen == v.generation && jobs[0].opGen == v.opGen
      && (jobs[0].OpenJob? ==> v.sorts.recovering && v.opGen > s.v.opGen)
    ensures Screen(s.(v := v), if jobs == [] then None else Some(Current(jobs[0], Queued)))
  {
    hide Traffic, Answers, ShowsPage, GoodData, RowsRemain, Strays;
  }

  // ---- A page arrives ----------------------------------------------------------------------

  /** Where the requested page starts. */
  ghost function Start(p: Pages): int {
    (p.pendingPage - 1) * p.pager.pageSize
  }

  /** What `q` asks of a view with rows, relative to the page on display. */
  ghost predicate StartsAt(v: Viewer, d: Data, q: Query, lo: int) {
    var p, n, size := v.pages, |d.table|, v.pages.pager.pageSize;
    && size > 0 && lo == Start(p) >= 0
    && (q.FirstPage? ==> lo == 0)
    && (q.NextPage? && p.shown.Some? ==> lo == p.pager.page * size == (p.pager.page - 1) * size + size)
    && (q.PrevPage? ==> p.shown.Some? && lo + size == (p.pager.page - 1) * size && (p.pager.page - 1) * size < n)
    && (q.LastPage? ==> q.total == n && lo < n && LastTarget(n, size) == lo && LastSize(n, size) == n - lo)
  }

  /** Where the page on display lies. */
  lemma PageOnDisplay(v: Viewer, d: Data, latched: bool)
    requires v.isPaged && Content(v, d, latched, false)
    ensures MIN_PAGE_ROWS <= v.pages.pager.pageSize && v.pages.pager.page >= 1
    ensures v.pages.pager.total.Some? ==> v.pages.pager.total == Some(|d.table|)
    ensures v.pages.shown == None ==> v.pages.pager.page == 1
    ensures var lo := (v.pages.pager.page - 1) * v.pages.pager.pageSize;
      v.pages.shown.Some? ==> 0 <= lo && (lo < |d.table| || lo == |d.table| == 0)
  {
    hide GoodData, RowsRemain, TokenAt, Slice, TextsFit, OrderOf;
  }

  lemma NextStarts(k: int, size: int)
    ensures k * size == (k - 1) * size + size
    ensures k >= 1 && size >= 0 ==> (k - 1) * size >= 0
  {
    if k >= 1 && size >= 0 {
      Grows(0, k - 1, size);
    }
  }

  lemma QueryStarts(v: Viewer, d: Data, latched: bool, q: Query)
    requires v.isPaged && Content(v, d, latched, false) && QueryFits(v, d, false, q)
    ensures StartsAt(v, d, q, Start(v.pages))
  {
    hide Content, LastSize, LastTarget;
    var p, size := v.pages, v.pages.pager.pageSize;
    PageOnDisplay(v, d, latched);
    NextStarts(p.pager.page, size);
    if q.PrevPage? {
      NextStarts(p.pager.page - 1, size);
    } else if q.LastPage? {
      LastStarts(p.pager, |d.table|, size);
    }
  }

  /** The last page of the pager is the one the source takes for the last. */
  lemma LastStarts(p: PagerState, n: nat, size: nat)
    requires p.total == Some(n) && p.pageSize == size > 0 && p.Pages() > p.page >= 1
    ensures var lo := (p.Pages() - 1) * size; 0 <= lo < n && LastTarget(n, size) == lo && LastSize(n, size) == n - lo
  {
    var lo := (p.Pages() - 1) * size;
    PagesCover(p);
    assert n > 0;
    Grows(0, p.Pages() - 1, size);
    assert p.Pages() * size == lo + size;
    Quotient(p.Pages() - 1, 0, lo, size);
    LastSizeIs(n, lo, size);
  }

  /** The page that arrives is the one that was asked for. */
  ghost predicate Lands(v: Viewer, d: Data, latched: bool, order: Option<SortState>, page: Page, lo: int, size: int) {
    && lo >= 0 && size > 0
    && if v.isCsv then CsvPage(d, latched, page, lo, size)
       else
         && PageAt(page, OrderOf(d.table, order), ModeOf(d.hasRowid, order), lo, size)
         && (lo < |d.table| || lo == |d.table| == 0)
         && (v.pages.pager.total == None ==> (page.hasMore || v.pages.pendingFromPrev) == (lo + size < |d.table|))
  }

  lemma SqliteLands(v: Viewer, d: Data, latched: bool, order: Option<SortState>, q: Query, page: Page)
    requires v.isPaged && !v.isCsv && Content(v, d, latched, false) && QueryFits(v, d, false, q)
    requires order.Some? ==> d.hasRowid
    requires q.FirstPage? || order == v.sorts.committed
    requires Answers(d, false, latched, false, order, q, v.pages.pager.pageSize, PageOk(page))
    ensures Lands(v, d, latched, order, page, Start(v.pages), v.pages.pager.pageSize)
  {
    hide PageAt, TokenAt, Slice, Ordered, Keyed, KeysetPage, OrdinalPage, OffsetPage, LastSize, LastTarget;
    var p, lo, size := v.pages, Start(v.pages), v.pages.pager.pageSize;
    QueryStarts(v, d, latched, q);
    OrderIsTable(d.table, order);
    match q
    case FirstPage => FirstAnswers(d.table, d.hasRowid, order, size);
    case NextPage(token) => NextAnswers(d.table, d.hasRowid, order, token, (p.pager.page - 1) * size, size);
    case PrevPage(token) => PrevAnswers(d.table, d.hasRowid, order, token, (p.pager.page - 1) * size, size);
    case LastPage(total) => LastAnswers(d.table, d.hasRowid, order, lo, size);
  }

  lemma CsvLands(v: Viewer, d: Data, latched: bool, order: Option<SortState>, q: Query, page: Page)
    requires v.isPaged && v.isCsv && Content(v, d, latched, false) && QueryFits(v, d, false, q)
    requires Answers(d, true, latched, false, order, q, v.pages.pager.pageSize, PageOk(page))
    ensures Lands(v, d, latched, order, page, Start(v.pages), v.pages.pager.pageSize)
    ensures page.rows == [] ==> !RowsRemain(v.pages.pager, d) || v.pages.shown == None
    ensures page.rows == [] && v.pages.shown == None ==> |d.table| == Start(v.pages) == 0
  {
    hide TokenAt, Slice, LastSize, LastTarget;
    QueryStarts(v, d, latched, q);
  }

  /** Committing the page that landed shows it: rows, token, labels and pager agree. */
  lemma Commits(v: Viewer, d: Data, latched: bool, order: Option<SortState>, page: Page)
    requires v.isPaged && Content(v, d, latched, false) && v.pages.pendingPage >= 1
    requires Lands(v, d, latched, order, page, Start(v.pages), v.pages.pager.pageSize)
    requires order == (if v.sorts.sorting then v.sorts.pending else v.sorts.committed) && !v.sorts.recovering
    requires v.sorts.sorting ==> v.pages.pager.total.Some?
    requires page.rows != [] || Start(v.pages) == |d.table| == 0
    ensures Content(CommitPage(v, page), d, latched, false)
  {
    hide GoodData, TokenAt, ShowsPage, Slice, OrderOf, TextsFit;
    NextStarts(v.pages.pendingPage, v.pages.pager.pageSize);
    CommitShows(v, d, latched, order, page);
  }

  lemma CommitShows(v: Viewer, d: Data, latched: bool, order: Option<SortState>, page: Page)
    requires v.isPaged && v.pages.pendingPage >= 1
    requires Lands(v, d, latched, order, page, Start(v.pages), v.pages.pager.pageSize)
    requires page.rows != [] || Start(v.pages) == |d.table| == 0
    ensures var w := CommitPage(v, page);
      w.pages.shown.Some? && ShowsPage(d, v.isCsv, latched, order, v.pages.pendingPage, v.pages.pager.pageSize,
          page.token, w.pages.shown.value)
  {
    hide TokenAt, TextsFit;
  }

  /** An answer without rows leaves the page on display, behind which there is nothing. */
  lemma Vanishes(v: Viewer, d: Data, latched: bool)
    requires v.isPaged && Content(v, d, latched, false) && v.pages.shown.Some? && !RowsRemain(v.pages.pager, d)
    requires v.isCsv || v.pages.pager.total.Some? || !v.pages.pager.arrivedFromPrev
    ensures Content(PageVanished(v), d, latched, false)
  {
    hide GoodData, TokenAt, ShowsPage;
  }

  /** The page that is awaited lands where the viewer expects it. */
  lemma AwaitedLands(s: System, c: Current, page: Page)
    requires InvAt(s, Some(c)) && s.v.isPaged && c.job.PageJob? && !Adrift(s)
    requires Answers(s.data, s.v.isCsv, s.latched, s.lost, s.order, c.job.query, c.job.size, PageOk(page))
    ensures Lands(s.v, s.data, s.latched, s.order, page, Start(s.v.pages), s.v.pages.pager.pageSize)
    ensures s.v.pages.pendingPage >= 1
    ensures page.rows == [] && s.v.pages.shown == None ==> |s.data.table| == Start(s.v.pages) == 0
    ensures page.rows == [] && !s.v.isCsv ==> |s.data.table| == Start(s.v.pages) == 0
    ensures page.rows == [] && s.v.pages.shown.Some? ==> !RowsRemain(s.v.pages.pager, s.data)
  {
    hide OneCurrent, Bounded, ProgressFollowsOpen, TotalsExact, Executed, Answers, Lands;
    AwaitedPage(s, c);
    if s.v.isCsv {
      CsvLands(s.v, s.data, s.latched, s.order, c.job.query, page);
    } else {
      SqliteLands(s.v, s.data, s.latched, s.order, c.job.query, page);
      SqliteEmpty(s.v, s.data, s.latched, s.order, page);
    }
  }

  lemma AwaitedPage(s: System, c: Current)
    requires InvAt(s, Some(c)) && s.v.isPaged && c.job.PageJob?
    ensures Content(s.v, s.data, s.latched, Adrift(s)) && QueryFits(s.v, s.data, Adrift(s), c.job.query)
    ensures s.v.pages.pendingPage >= 1 && s.lost == Adrift(s)
    ensures c.job.size == s.v.pages.pager.pageSize
    ensures s.order == (if s.v.sorts.sorting then s.v.sorts.pending else s.v.sorts.committed)
    ensures (s.order.Some? ==> s.data.hasRowid && Keyed(s.data.table))
    ensures (c.job.query.FirstPage? || s.order == s.v.sorts.committed)
    ensures !s.v.sorts.recovering && (s.v.sorts.sorting ==> s.v.pages.pager.total.Some? && !s.v.isCsv)
    ensures s.v.firstPagePending == (s.v.pages.shown == None) && s.v.pages.pager.page >= 1
    ensures !Adrift(s) && !s.v.isCsv && s.v.pages.pager.total == None && s.v.pages.shown.Some? ==>
      s.v.pages.pager.arrivedFromPrev ==> RowsRemain(s.v.pages.pager, s.data)
  {
    hide OneCurrent, Bounded, ProgressFollowsOpen, TotalsExact, Executed, ShowsPage, RowsRemain;
    if c.job.query.LastPage? {
      PagesCover(s.v.pages.pager);
    }
  }

  /** The awaited page, as far as the content is concerned. */
  lemma PageContent(s: System, c: Current)
    requires InvAt(s, Some(c)) && c.job.PageJob? && s.signals != [] && s.signals[0].PageReady?
    requires ReplyFits(s, c.job, s.signals[0])
    requires Accepts(s.v, s.signals[0].viewGen, s.signals[0].opGen)
    ensures Content(OnPageReady(s.v, s.signals[0]).0, s.data, s.latched, Adrift(s))
  {
    hide InvAt, Answers, Lands, Content, QueryFits, RowsRemain, CommitPage, PageVanished, Adrift;
    var v, d, latched, result := s.v, s.data, s.latched, s.signals[0].result;
    var w := v.(pages := v.pages.(inFlight := false));
    AwaitedPage(s, c);
    SameContent(v, w, d, latched, Adrift(s));
    if result.PageError? {
      SameContent(v, OnPageReady(v, s.signals[0]).0, d, latched, Adrift(s));
    } else if Adrift(s) {
      AdriftContent(s, c, w, result.page);
    } else {
      AwaitedLands(s, c, result.page);
      SameLanding(v, w, d, latched, s.order, result.page);
      if !v.firstPagePending && !v.sorts.sorting && result.page.rows == [] {
        Vanishes(w, d, latched);
      } else {
        Commits(w, d, latched, s.order, result.page);
      }
    }
  }

  /** Whatever an adrift view has asked for, the page starts at the row its token says. */
  lemma AdriftLands(v: Viewer, d: Data, latched: bool, q: Query, page: Page)
    requires v.isPaged && !v.isCsv && Content(v, d, latched, true) && QueryFits(v, d, true, q)
    requires PageOk(page) == Answer(d.table, false, None, q, v.pages.pager.pageSize)
    ensures page.token.offset >= 0 && PageAt(page, d.table, Offset, page.token.offset, v.pages.pager.pageSize)
  {
    hide Answer, Slice, ShowsPage;
    var n, size := |d.table|, v.pages.pager.pageSize;
    match q
    case FirstPage => FirstAnswers(d.table, false, None, size);
    case NextPage(token) =>
      ValidTokenNeeded(d, q, size);
      NextAnswers(d.table, false, None, token, token.offset, size);
    case PrevPage(token) =>
      ValidTokenNeeded(d, q, size);
      PrevAnswers(d.table, false, None, token, token.offset, size);
      SpansIsPage(page, d.table, Offset, PrevStart(token.offset, size), size);
    case LastPage(total) =>
      if n > 0 {
        LastSizeBound(n, size);
      }
      LastAnswers(d.table, false, None, if n == 0 then 0 else n - LastSize(n, size), size);
  }

  lemma ValidTokenNeeded(d: Data, q: Query, size: int)
    requires q.NextPage? || q.PrevPage?
    ensures Answer(d.table, false, None, q, size).PageOk? ==> q.token.valid
  {
  }

  /** A page that arrives in an adrift view. */
  lemma AdriftContent(s: System, c: Current, w: Viewer, page: Page)
    requires InvAt(s, Some(c)) && s.v.isPaged && c.job.PageJob? && Adrift(s)
    requires Answers(s.data, s.v.isCsv, s.latched, s.lost, s.order, c.job.query, c.job.size, PageOk(page))
    requires w == s.v.(pages := s.v.pages.(inFlight := false))
    ensures page.token.offset >= 0 && PageAt(page, s.data.table, Offset, page.token.offset, s.v.pages.pager.pageSize)
    ensures Content(CommitPage(w, page), s.data, s.latched, true) && Content(PageVanished(w), s.data, s.latched, true)
  {
    hide InvAt, Answer, Slice, ShowsPage, GoodData, TokenAt;
    AwaitedPage(s, c);
    NotCsv(s, Some(c));
    AdriftLands(s.v, s.data, s.latched, c.job.query, page);
  }

  lemma NotCsv(s: System, c: Option<Current>)
    requires InvAt(s, c) && s.v.isPaged && s.lost
    ensures !s.v.isCsv && s.data.hasRowid
  {
  }

  /** The request flags are not part of the content. */
  lemma SameContent(v: Viewer, w: Viewer, d: Data, latched: bool, adrift: bool)
    requires Content(v, d, latched, adrift) && w.isPaged == v.isPaged && w.isCsv == v.isCsv
    requires w.firstPagePending == v.firstPagePending
    requires w.sorts.committed == v.sorts.committed
    requires w.pages.pager == v.pages.pager && w.pages.token == v.pages.token && w.pages.shown == v.pages.shown
    ensures Content(w, d, latched, adrift)
  {
    hide ShowsPage, GoodData, RowsRemain;
  }

  lemma SameLanding(v: Viewer, w: Viewer, d: Data, latched: bool, order: Option<SortState>, page: Page)
    requires Lands(v, d, latched, order, page, Start(v.pages), v.pages.pager.pageSize)
    requires w == v.(pages := v.pages.(inFlight := false))
    ensures Lands(w, d, latched, order, page, Start(w.pages), w.pages.pager.pageSize)
  {
    hide CsvPage, PageAt;
  }

  lemma SqliteEmpty(v: Viewer, d: Data, latched: bool, order: Option<SortState>, page: Page)
    requires !v.isCsv && Lands(v, d, latched, order, page, Start(v.pages), v.pages.pager.pageSize)
    requires (order.Some? ==> Keyed(d.table))
    ensures page.rows == [] ==> Start(v.pages) == |d.table| == 0
  {
    OrderIsTable(d.table, order);
  }

  lemma DeliversPage(s: System, c: Option<Current>)
    requires InvAt(s, c) && HeadIsCurrent(s, c) && s.signals[0].PageReady?
    ensures Inv(Acts(Popped(s), OnPageReady(s.v, s.signals[0])))
  {
    hide Traffic, Screen, Answers, Carried, OnPageReady, Adrift;
    PopsCurrent(s, c);
    var (v, jobs) := OnPageReady(s.v, s.signals[0]);
    var t := Acts(Popped(s), (v, jobs));
    var next := if jobs == [] then None else Some(Current(jobs[0], Queued));
    PageScreen(s, c, v, jobs);
    SameScreen(s.(v := v), next, t, next);
    if jobs == [] {
      Rests(Popped(s), v);
    } else {
      assert jobs == [jobs[0]];
      Supersedes(Popped(s), v, jobs[0]);
    }
    assert InvAt(t, next);
  }

  /** What the viewer waits for behind a page, and what it shows. */
  lemma PageScreen(s: System, c: Option<Current>, v: Viewer, jobs: seq<Job>)
    requires InvAt(s, c) && HeadIsCurrent(s, c) && s.signals[0].PageReady?
    requires s.v.isPaged && Accepts(s.v, s.signals[0].viewGen, s.signals[0].opGen)
    requires ReplyFits(s, c.value.job, s.signals[0])
    requires (v, jobs) == OnPageReady(s.v, s.signals[0])
    ensures v.generation == s.v.generation && |jobs| <= 1
    ensures v.opGen == s.v.opGen + |jobs|
    ensures jobs != [] ==>
      jobs[0].viewGen == v.generation && jobs[0].opGen == v.opGen && (jobs[0].OpenJob? ==> v.sorts.recovering)
    ensures Screen(s.(v := v), if jobs == [] then None else Some(Current(jobs[0], Queued)))
  {
    hide Traffic, Content, Answers;
    PageIsAwaited(s, c);
    PageContent(s, c.value);
  }

  lemma PageIsAwaited(s: System, c: Option<Current>)
    requires InvAt(s, c) && HeadIsCurrent(s, c) && s.signals[0].PageReady?
    requires ReplyFits(s, c.value.job, s.signals[0])
    ensures c.value.job.PageJob?
  {
    hide InvAt, Answers;
  }

  /** Whatever happens next, the invariant survives. */
  lemma StepKeeps(s: System, e: Event, t: System)
    requires Inv(s) && Steps(s, e, t)
    ensures Inv(t)
  {
    hide InvAt, Acts, Executes, Stale, GoodData;
    var c :| InvAt(s, c);
    match e
    case ClickPage(button) => PageClicked(s, c, button);
    case ClickSort(column) => SortClicked(s, c, column);
    case ClickCancel => CancelClicked(s, c);
    case Load(isCsv, data) => Loads(s, c, isCsv, data);
    case Retire => Retires(s, c);
    case CountDone(ok) => Counted(s, c, ok);
    case Deliver(pageSize) => Delivers(s, c, pageSize);
    case DropStale => Drops(s, c);
    case Begin(reply, after, found) => Begins(s, c, reply, after, found);
    case Park => Parks(s, c);
    case DropParked => DropsParked(s, c);
    case Wake(reply) => Wakes(s, c, reply);
    case Emit => Emits(s, c);
    case Discard => Discards(s, c);
    case IndexTick(rows, isComplete, failed) => Ticks(s, c, rows, isComplete, failed);
    case Latch => Latches(s, c);
    case LateSignal(signal) => Lates(s, c, signal);
  }

  lemma Delivers(s: System, c: Option<Current>, pageSize: int)
    requires InvAt(s, c) && s.signals != [] && MIN_PAGE_ROWS <= pageSize <= MAX_PAGE_ROWS
    ensures Inv(Acts(Popped(s), Handle(s.v, s.signals[0], pageSize)))
  {
    hide InvAt, Acts;
    HeadIsEither(s, c);
    if s.signals[0].IndexProgress? {
      DeliversProgress(s, c);
    } else if StaleSignal(s.v, s.signals[0]) {
      DeliversStale(s, c, pageSize);
    } else {
      match s.signals[0]
      case OpenCompleted(_, _, _, _) => DeliversOpen(s, c, pageSize);
      case SortCompleted(_, _, _, _) => DeliversSort(s, c);
      case PageReady(_, _, _) => DeliversPage(s, c);
      case IndexProgress(_, _, _, _) =>
    }
  }

  // ---- All runs ----------------------------------------------------------------------------

  ghost predicate Run(states: seq<System>, events: seq<Event>) {
    && |states| == |events| + 1 && states[0] == START
    && forall i | 0 <= i < |events| :: Steps(states[i], events[i], states[i + 1])
  }

  lemma {:induction false} RunKeeps(states: seq<System>, events: seq<Event>)
    requires Run(states, events)
    ensures Inv(states[|events|])
    decreases |events|
  {
    hide Inv, Steps;
    if events == [] {
      StartHolds();
    } else {
      var n := |events| - 1;
      assert Run(states[..n + 1], events[..n]) by {
        assert forall i | 0 <= i < n :: Steps(states[i], events[i], states[i + 1]);
      }
      RunKeeps(states[..n + 1], events[..n]);
      StepKeeps(states[n], events[n], states[n + 1]);
    }
  }

  /** The states a run can end in. */
  ghost predicate Reachable(s: System) {
    exists states: seq<System>, events: seq<Event> :: Run(states, events) && states[|events|] == s
  }

  lemma ReachableHolds(s: System)
    requires Reachable(s)
    ensures Inv(s)
  {
    hide Inv, Steps;
    var states: seq<System>, events: seq<Event> :| Run(states, events) && states[|events|] == s;
    RunKeeps(states, events);
  }

  lemma Extends(s: System, e: Event, t: System)
    requires Reachable(s) && Steps(s, e, t)
    ensures Reachable(t)
  {
    hide Steps;
    var states: seq<System>, events: seq<Event> :| Run(states, events) && states[|events|] == s;
    assert Run(states + [t], events + [e]);
    assert (states + [t])[|events + [e]|] == t;
  }

  /** In every run: while the viewer is settled on an order, the worker's source is on the same one
      and nothing that could change it is on its way, although superseded sorts may have promoted
      their own order before they were discarded. */
  lemma SettledOrderAgrees(s: System)
    requires Reachable(s) && s.v.isPaged && !s.v.sorts.sorting && s.v.sorts.orderValid
    ensures s.order == s.v.sorts.committed
    ensures forall i | 0 <= i < |s.jobs| ::
      s.jobs[i].SortJob? || (s.jobs[i].OpenJob? && !Opening(s.v)) ==> Stale(s.v, s.jobs[i])
    ensures s.worker.Busy? && !s.worker.job.PageJob? && !Opening(s.v) ==> Stale(s.v, s.worker.job)
  {
    ReachableHolds(s);
    hide Content, Executed;
  }

  /** In every run: what is displayed is one page of the committed order, and page number, token and
      row labels belong to that page.  Of a CSV file it is exactly the records of the page, as many as
      there are, unless indexing has ended for good on a failure. */
  lemma DisplayAgrees(s: System)
    requires Reachable(s) && s.v.isPaged && s.v.pages.shown.Some? && !Adrift(s)
    ensures var p := s.v.pages;
      && p.pager.page >= 1 && MIN_PAGE_ROWS <= p.pager.pageSize <= MAX_PAGE_ROWS
      && ShowsPage(s.data, s.v.isCsv, s.latched, s.v.sorts.committed, p.pager.page, p.pager.pageSize, p.token,
           p.shown.value)
    ensures s.v.isCsv ==>
      && s.v.pages.token.offset == (s.v.pages.pager.page - 1) * s.v.pages.pager.pageSize
      && forall i | 0 <= i < |s.v.pages.shown.value.rows| ::
           s.v.pages.shown.value.rows[i].rowid == s.v.pages.shown.value.rowOffset + i
    ensures s.announced && s.begun
    ensures s.v.isCsv && !s.latched ==>
      var lo, size := (s.v.pages.pager.page - 1) * s.v.pages.pager.pageSize, s.v.pages.pager.pageSize;
      |s.v.pages.shown.value.rows| == Min(size, |s.data.table| - lo)
  {
    ReachableHolds(s);
    hide Bounded, OneCurrent, Awaits, OrderKept, Executed, ProgressFollowsOpen, TotalsExact, TokenAt, OrderOf;
  }

  /** In every run: what the worker may start on.  Pages are asked for only once the open has been
      announced, and a CSV view never sorts. */
  lemma RunnableJob(s: System)
    requires Reachable(s) && s.jobs != [] && !Stale(s.v, s.jobs[0])
    ensures s.v.isPaged && (s.jobs[0].PageJob? ==> s.announced)
    ensures s.v.isCsv ==> !s.jobs[0].SortJob? && s.order == None && (s.jobs[0].OpenJob? ==> !s.announced)
    ensures s.jobs[0].OpenJob? ==> s.data.hasRowid || !s.begun
    ensures !s.jobs[0].OpenJob? ==> s.begun
  {
    ReachableHolds(s);
    hide Bounded, Executed, TotalsExact, ShowsPage, RowsRemain;
    var c: Option<Current> :| InvAt(s, c);
    assert c == Some(Current(s.jobs[0], Queued));
  }

  /** In every run: as long as rows remain behind the page on display, next is enabled; for SQLite
      it is enabled only then. */
  lemma NextEnabled(s: System)
    requires Reachable(s) && s.v.isPaged && s.v.pages.shown.Some? && !Adrift(s)
    ensures s.v.pages.pager.total.Some? ==> s.v.pages.pager.total.value == |s.data.table|
    ensures RowsRemain(s.v.pages.pager, s.data) ==> s.v.pages.pager.CanNext()
    ensures !s.v.isCsv && s.v.pages.pager.CanNext() ==> RowsRemain(s.v.pages.pager, s.data)
  {
    ReachableHolds(s);
    hide Bounded, OneCurrent, Awaits, OrderKept, Executed, ProgressFollowsOpen, TotalsExact, ShowsPage, GoodData;
    if s.v.pages.pager.total.Some? {
      NextIffRowsRemain(s.v.pages.pager);
    }
  }

  /** In every run: a busy viewer waits for exactly one request, which is queued, parked, running or
      already answered; everything else on its way is stale.  So it is never left waiting for nothing,
      and no request is answered to it twice. */
  lemma BusyAwaitsOne(s: System)
    requires Reachable(s) && (s.v.sorts.sorting || s.v.pages.inFlight)
    ensures exists c: Current ::
      !Stale(s.v, c.job) && Located(s, c) && OneCurrent(s, Some(c)) && Awaits(s.v, s.data, Adrift(s), Some(c))
  {
    ReachableHolds(s);
    var c: Option<Current> :| InvAt(s, c);
    hide Content, Executed, OrderKept, Bounded, ProgressFollowsOpen, TotalsExact;
    assert Located(s, c.value);
  }

  ghost predicate Unsettled(s: System) {
    s.v.sorts.sorting && s.order != s.v.sorts.committed && s.order != s.v.sorts.pending
  }

  /** The agreement really needs a settled viewer: here a sort that was superseded before its reply
      was emitted has already promoted its order, which is neither the committed one nor the one now
      asked for. */
  lemma SupersededSortPromotes()
    ensures exists s: System :: Reachable(s) && Unsettled(s)
  {
    hide Reachable;
    var d, up := Data([], true, ANY_TEXT), SortState(0, true);
    var idle := SettledStart(d);
    var s8 := Acts(idle, OnSortClicked(idle.v, 0));
    Extends(idle, ClickSort(0), s8);
    var sorted := SortCompleted(1, 2, true, 0);
    var s9 := s8.(jobs := [], worker := Busy(SortJob(1, 2, up), sorted), order := Some(up));
    Extends(s8, Begin(sorted, Some(up), true), s9);
    var s10 := Acts(s9, OnSortClicked(s9.v, 0));
    Extends(s9, ClickSort(0), s10);
    assert Unsettled(s10);
  }

  /** A view whose first page failed: nothing is on its way, and a sort may be clicked. */
  lemma SettledStart(d: Data) returns (s: System)
    requires d == Data([], true, ANY_TEXT)
    ensures Reachable(s) && s.v.generation == 1 && s.v.opGen == 1 && s.v.isPaged && !s.v.isCsv && !s.v.pages.inFlight
    ensures s.data == d
    ensures s.v.sorts == NO_SORTS.(canSort := true) && s.jobs == [] && s.worker == Idle && s.order == None
    ensures s.parked == None && s.announced && !s.lost
  {
    hide Reachable;
    assert Reachable(START) by {
      Begun();
    }
    var s1 := Acts(START, LoadSelectedTable(START.v, false)).(data := d);
    Extends(START, Load(false, d), s1);
    var completed, failed := OpenCompleted(1, 1, true, true), PageReady(1, 1, PageError(Cancelled));
    var s2 := s1.(jobs := [], worker := Busy(OpenJob(1, 1), completed), begun := true);
    Extends(s1, Begin(completed, None, true), s2);
    var s3 := s2.(worker := Idle, signals := [completed], announced := true);
    Extends(s2, Emit, s3);
    var s4 := Acts(s3.(signals := []), OnOpenCompleted(s3.v, completed, 500));
    Extends(s3, Deliver(500), s4);
    var s5 := s4.(jobs := [], worker := Busy(PageJob(1, 1, FirstPage, 500), failed));
    Extends(s4, Begin(failed, None, true), s5);
    var s6 := s5.(worker := Idle, signals := [failed]);
    Extends(s5, Emit, s6);
    s := Acts(s6.(signals := []), OnPageReady(s6.v, failed));
    Extends(s6, Deliver(500), s);
  }

  lemma Begun()
    ensures Reachable(START)
  {
    var events: seq<Event> := [];
    assert Run([START], events) && [START][|events|] == START;
  }
}
