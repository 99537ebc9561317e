/** The protocol state of the table viewer and what each of its handlers does to it.  Widgets,
    headers and status texts are not part of this model. */
module ViewerState {
  import opened TableSource
  import opened SqlitePaging
  import opened PagerState

  /** What the UI thread queues for the source worker. */
  datatype Job =
    | OpenJob(viewGen: nat, opGen: nat)
    | SortJob(viewGen: nat, opGen: nat, sort: SortState)
    | PageJob(viewGen: nat, opGen: nat, query: Query, size: int)

  /** What the worker emits. */
  datatype Signal =
    | OpenCompleted(viewGen: nat, opGen: nat, ok: bool, canSort: bool)
    | SortCompleted(viewGen: nat, opGen: nat, ok: bool, total: int)
    | PageReady(viewGen: nat, opGen: nat, result: PageResult)
    | IndexProgress(viewGen: nat, rows: int, isComplete: bool, failed: bool)

  /** What the renderer shows: rows, the label offset of the first one, and the cells of a CSV page. */
  datatype Shown = Shown(rows: seq<TableRow>, rowOffset: int, texts: seq<RowText>)

  /** The sort protocol. */
  datatype Sorts = Sorts(sorting: bool, recovering: bool, canSort: bool, orderValid: bool,
                         committed: Option<SortState>, pending: Option<SortState>)

  /** The page protocol. */
  datatype Pages = Pages(inFlight: bool, pendingPage: int, pendingFromPrev: bool, pager: PagerState, token: PageToken,
      shown: Option<Shown>)

  /** The background row count of a SQLite table. */
  datatype Counts = Counts(requested: bool, failed: bool, sortAuthoritative: bool)

  /** `generation` is also the value of the shared view counter. */
  datatype Viewer = Viewer(generation: nat, opGen: nat, isPaged: bool, isCsv: bool, firstPagePending: bool,
                           sorts: Sorts, pages: Pages, counts: Counts)

  const NO_TOKEN := PageToken(0, 0, 0, false)
  const NO_SORTS := Sorts(false, false, false, true, None, None)
  const NO_PAGES := Pages(false, 1, false, NEW_PAGER, NO_TOKEN, None)
  const NO_COUNTS := Counts(false, false, false)

  predicate Accepts(v: Viewer, viewGen: nat, opGen: nat) {
    viewGen == v.generation && v.isPaged && opGen == v.opGen
  }

  /** Retires the view: everything queued or still to be emitted for it is stale from now on. */
  function CancelPending(v: Viewer): Viewer {
    Viewer(v.generation + 1, v.opGen + 1, false, false, false, NO_SORTS, NO_PAGES.(shown := v.pages.shown), NO_COUNTS)
  }

  /** Starts over with another file or table and its own worker. */
  function LoadSelectedTable(v: Viewer, isCsv: bool): (Viewer, seq<Job>) {
    var generation := CancelPending(v).generation;
    (Viewer(generation, 1, true, isCsv, true, NO_SORTS, NO_PAGES, NO_COUNTS), [OpenJob(generation, 1)])
  }

  // ---- Sorting -----------------------------------------------------------------------------

  function Toggled(s: Sorts, column: nat): SortState {
    var previous := if s.pending.Some? then s.pending else s.committed;
    SortState(column, !(previous.Some? && previous.value.column == column && previous.value.ascending))
  }

  function OnSortClicked(v: Viewer, column: nat): (Viewer, seq<Job>) {
    if !v.isPaged || !v.sorts.canSort || v.sorts.recovering || (v.pages.inFlight && !v.sorts.sorting) then (v, [])
    else
      var sort := Toggled(v.sorts, column);
      (v.(opGen := v.opGen + 1, sorts := v.sorts.(pending := Some(sort), sorting := true)),
          [SortJob(v.generation, v.opGen + 1, sort)])
  }

  /** Reopens the source before the committed order is restored: a superseded sort may already
      have promoted its own. */
  function RecoverSort(v: Viewer): (Viewer, seq<Job>) {
    (v.(opGen := v.opGen + 1, sorts := v.sorts.(pending := None, recovering := true),
        pages := v.pages.(inFlight := false)),
     if v.isPaged then [OpenJob(v.generation, v.opGen + 1)] else [])
  }

  function CancelSort(v: Viewer): (Viewer, seq<Job>) {
    if v.sorts.sorting && !v.sorts.recovering then RecoverSort(v) else (v, [])
  }

  function FinishSortRecovery(v: Viewer): Viewer {
    v.(sorts := v.sorts.(sorting := false, recovering := false))
  }

  function FailSortRecovery(v: Viewer): Viewer {
    v.(sorts := v.sorts.(orderValid := false, canSort := false, sorting := false, recovering := false))
  }

  function OnOpenCompleted(v: Viewer, s: Signal, pageSize: int): (Viewer, seq<Job>)
    requires s.OpenCompleted?
  {
    if !Accepts(v, s.viewGen, s.opGen) then (v, [])
    else
      var w := v.(sorts := v.sorts.(canSort := s.canSort));
      if w.sorts.recovering then
        if !s.ok then (FailSortRecovery(w), [])
        else if w.sorts.committed.Some? then (w, [SortJob(s.viewGen, s.opGen, w.sorts.committed.value)])
        else (FinishSortRecovery(w), [])
      else if !s.ok then (CancelPending(w), [])
      else (Opened(w, pageSize), [PageJob(s.viewGen, s.opGen, FirstPage, pageSize)])
  }

  /** A fresh pager; a total that is already known is kept. */
  function Opened(v: Viewer, pageSize: int): Viewer {
    var total := v.pages.pager.total;
    var pager := NEW_PAGER.(total := total, pageSize := pageSize, hasMore := total.Some? && total.value > pageSize);
    v.(pages := v.pages.(pager := pager, pendingPage := 1, pendingFromPrev := false, inFlight := true))
  }

  function OnSortCompleted(v: Viewer, s: Signal): (Viewer, seq<Job>)
    requires s.SortCompleted?
  {
    if !Accepts(v, s.viewGen, s.opGen) then (v, [])
    else if v.sorts.recovering then (if s.ok then FinishSortRecovery(v) else FailSortRecovery(v), [])
    else if !s.ok then RecoverSort(v)
    else
      var pages := v.pages.(pager := v.pages.pager.(total := Some(s.total)), pendingPage := 1, pendingFromPrev := false,
          inFlight := true);
      (v.(counts := v.counts.(sortAuthoritative := true), pages := pages),
       [PageJob(s.viewGen, s.opGen, FirstPage, v.pages.pager.pageSize)])
  }

  // ---- Pages -------------------------------------------------------------------------------

  function OnPageReady(v: Viewer, s: Signal): (Viewer, seq<Job>)
    requires s.PageReady?
  {
    if !Accepts(v, s.viewGen, s.opGen) then (v, [])
    else
      var w := v.(pages := v.pages.(inFlight := false));
      if s.result.PageError? then
        if v.sorts.sorting then RecoverSort(w)
        else (w.(pages := w.pages.(pendingPage := w.pages.pager.page)), [])
      else if !v.firstPagePending && !v.sorts.sorting && s.result.page.rows == [] then (PageVanished(w), [])
      else (CommitPage(w, s.result.page), [])
  }

  /** The requested page has no rows: the committed page stays. */
  function PageVanished(v: Viewer): Viewer {
    var recount := !v.isCsv && !v.counts.failed;
    v.(pages := v.pages.(pager := v.pages.pager.(hasMore := false)),
       counts := if recount then v.counts.(sortAuthoritative := false, requested := true) else v.counts)
  }

  /** The page that arrived becomes the one on display; a pending sort is committed with it. */
  function CommitPage(v: Viewer, page: Page): Viewer {
    var sorts := if v.sorts.sorting && !v.sorts.recovering
      then v.sorts.(committed := v.sorts.pending, pending := None, sorting := false) else v.sorts;
    v.(pages := Display(v.pages, page), sorts := sorts, firstPagePending := false,
       counts := StartCount(v.counts, v.isCsv, v.pages.pager.total))
  }

  function Display(p: Pages, page: Page): Pages {
    var size := p.pager.pageSize;
    var hasMore := if p.pager.total.Some? then p.pager.total.value > p.pendingPage * size else page.hasMore;
    var firstRow := if page.rows != [] then FirstRowOnPage(p.pendingPage, size) else 0;
    p.(pager := p.pager.(page := p.pendingPage, arrivedFromPrev := p.pendingFromPrev, hasMore := hasMore),
        token := page.token,
       shown := Some(Shown(page.rows, if firstRow > 0 then firstRow - 1 else 0, page.texts)))
  }

  /** The rows of a SQLite table are counted once, behind its first page. */
  function StartCount(c: Counts, isCsv: bool, total: Option<int>): Counts {
    if !isCsv && !c.requested && !c.failed && total == None then c.(requested := true) else c
  }

  /** Common to the four page buttons. */
  function NavigatePage(v: Viewer, targetPage: int, fromPrev: bool, query: Query): (Viewer, seq<Job>) {
    if !v.isPaged || !v.sorts.orderValid || v.sorts.sorting || v.pages.inFlight then (v, [])
    else
      (v.(opGen := v.opGen + 1,
          pages := v.pages.(inFlight := true, pendingPage := targetPage, pendingFromPrev := fromPrev)),
       [PageJob(v.generation, v.opGen + 1, query, v.pages.pager.pageSize)])
  }

  datatype Button = FirstButton | PrevButton | NextButton | LastButton

  predicate Enabled(p: PagerState, b: Button) {
    match b
    case FirstButton => p.CanFirst()
    case PrevButton => p.CanPrev()
    case NextButton => p.CanNext()
    case LastButton => p.CanLast()
  }

  function OnPageClicked(v: Viewer, b: Button): (Viewer, seq<Job>) {
    var pager := v.pages.pager;
    if !Enabled(pager, b) then (v, [])
    else match b
      case FirstButton => NavigatePage(v, 1, false, FirstPage)
      case PrevButton => NavigatePage(v, pager.page - 1, true, PrevPage(v.pages.token))
      case NextButton => NavigatePage(v, pager.page + 1, false, NextPage(v.pages.token))
      case LastButton => NavigatePage(v, pager.Pages(), false, LastPage(pager.total.value))
  }

  // ---- Totals ------------------------------------------------------------------------------

  function OnIndexProgress(v: Viewer, s: Signal): Viewer
    requires s.IndexProgress?
  {
    if s.viewGen != v.generation || !v.isPaged || !v.isCsv || s.failed || !s.isComplete then v
    else
      var pager := v.pages.pager;
      v.(pages := v.pages.(pager := pager.(total := Some(s.rows), hasMore := s.rows > pager.page * pager.pageSize)))
  }

  function OnCountCompleted(v: Viewer, viewGen: nat, ok: bool, total: int): Viewer {
    if viewGen != v.generation || !v.isPaged then v
    else if ok && !v.counts.sortAuthoritative then v.(pages := v.pages.(pager := v.pages.pager.(total := Some(total))))
    else if !ok then v.(counts := v.counts.(failed := true))
    else v
  }
}
