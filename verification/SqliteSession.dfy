/** Browsing SQLite tables: the viewer object and the source object of its worker, with the queues
    between them.  The worker checks at the start and at the end of a job whether it is still
    wanted, and the UI thread may act while the job runs. */
module SqliteSession {
  import opened TableSource
  import opened SqlitePaging
  import opened SqliteTableSource
  import opened ViewerState
  import opened ViewerProtocol
  import opened ViewerDesk
  import opened ViewerSources
  import opened LostRowid

  datatype Turn =
    | Acting(acts: seq<Act>)
    | Loading(table: seq<TableRow>, columnCount: nat, keyed: bool)
    | Working(acts: seq<Act>)  // the worker takes the next job; the UI thread acts while it runs

  ghost predicate Sound(turn: Turn) {
    turn.Loading? ==> GoodData(Data(turn.table, turn.keyed, ANY_TEXT), false)
  }

  class SqliteSession {
    const desk: Desk
    var source: SqliteTableSource?

    constructor ()
      ensures fresh(desk) && fresh(desk.viewer) && source == null && InStep()
    {
      desk := new Desk();
      source := null;
    }

    /** Between two turns the worker is idle, and its source is on the order the protocol knows. */
    ghost predicate InStep()
      reads this, desk, desk.viewer, source
    {
      && desk.InStep() && desk.system.worker.Idle?
      && (desk.system.v.isPaged ==> source != null && SourceInStep(source, desk.system))
    }

    ghost predicate SourceInStep(source: SqliteTableSource, s: System)
      reads source
    {
      && source.Valid() && !s.v.isCsv && Describes(s.data, source) && s.order == source.activeSort
      && if s.begun then source.hasRowid == (s.data.hasRowid && !s.lost) else s.data.hasRowid == source.keyed
    }

    method Load(table: seq<TableRow>, columnCount: nat, keyed: bool)
      requires InStep() && GoodData(Data(table, keyed, ANY_TEXT), false)
      modifies this, desk, desk.viewer
      ensures InStep() && fresh(source)
    {
      hide Desk.InStep;
      source := new SqliteTableSource(table, columnCount, keyed);
      desk.Open(false, |table|, Data(table, keyed, ANY_TEXT));
    }

    method Work(acts: seq<Act>)
      requires InStep()
      modifies desk, desk.viewer, source
      ensures InStep()
    {
      hide Reachable, GoodData;
      if desk.taken == |desk.viewer.sent| {
        desk.PerformAll(acts);
        return;
      }
      var job := desk.viewer.sent[desk.taken];
      ghost var s := desk.system;
      if Stale(desk.viewer.State(), job) {
        desk.Take(DropStale, s.(jobs := s.jobs[1..]));
        return;
      }
      RunnableJob(s);
      var reply, quiet := ExecuteSqlite(source, job, s.data, s.lost);
      Start(job, reply);
      desk.PerformAll(acts);
      Finish(job, reply);
    }

    /** The job has passed the check at its start. */
    method Start(job: Job, reply: Signal)
      requires desk.InStep() && desk.system.worker.Idle? && desk.system.jobs != [] && job == desk.system.jobs[0]
      requires desk.system.v.isPaged && !desk.system.v.isCsv && !Stale(desk.system.v, job)
      requires source != null && source.Valid() && Describes(desk.system.data, source)
      requires if job.OpenJob? then desk.system.data.hasRowid == source.keyed
               else desk.system.begun && source.hasRowid == (desk.system.data.hasRowid && !desk.system.lost)
      requires Executes(desk.system.data, false, false, desk.system.lost, desk.system.order, job, reply,
                        source.activeSort,
                        source.hasRowid)
      modifies desk
      ensures desk.InStep() && desk.system.worker == Busy(job, reply) && desk.system.v == old(desk.system.v)
      ensures SourceInStep(source, desk.system)
    {
      hide Desk.InStep;
      ghost var s := desk.system;
      ExecutesWhenLatched(s.data, s.latched, s.lost, s.order, job, reply, source.activeSort, source.hasRowid);
      desk.Take(Begin(reply, source.activeSort, source.hasRowid),
                Beginning(s, reply, source.activeSort, source.hasRowid));
    }

    /** A failure that indexing latches is nothing to a SQLite worker. */
    lemma ExecutesWhenLatched(d: Data, latched: bool, lost: bool, order: Option<SortState>, job: Job, reply: Signal,
                              after: Option<SortState>, found: bool)
      requires Executes(d, false, false, lost, order, job, reply, after, found)
      ensures Executes(d, false, latched, lost, order, job, reply, after, found)
    {
    }

    /** The check at the end of the job: its reply is sent unless the UI thread has moved on. */
    method Finish(job: Job, reply: Signal)
      requires desk.InStep()
      requires if desk.system.v.isPaged then desk.system.worker == Busy(job, reply)
               else desk.system.worker.Idle? && Stale(desk.system.v, job)
      requires desk.system.v.isPaged ==> source != null && SourceInStep(source, desk.system)
      modifies desk
      ensures InStep()
    {
      hide Reachable;
      ghost var s := desk.system;
      if Stale(desk.viewer.State(), job) {
        if desk.viewer.isPaged {
          desk.Progress(Discard, s.(worker := Worker.Idle));
        }
      } else {
        desk.Send(reply, Emit, Emission(s));
      }
    }

    method Turn(turn: Turn)
      requires InStep() && Sound(turn)
      modifies this, desk, desk.viewer, source
      ensures InStep() && (source == old(source) || fresh(source))
    {
      hide Desk.InStep, Reachable;
      match turn
      case Acting(acts) => desk.PerformAll(acts);
      case Loading(table, columnCount, keyed) => Load(table, columnCount, keyed);
      case Working(acts) => Work(acts);
    }

    /** The row id the first open of the view had found is gone, and the viewer goes on without it. */
    ghost predicate RowidLost()
      reads this, desk, desk.viewer, source
    {
      && source != null && desk.system.data.hasRowid && !source.hasRowid
      && !desk.viewer.sorts.sorting && desk.viewer.sorts.orderValid
    }

    /** What the user sees, and what the source would serve next, belong together. */
    ghost predicate Agrees()
      reads this, desk, desk.viewer, source
    {
      var v := desk.viewer;
      v.isPaged ==>
        && source != null
        && (!v.sorts.sorting && v.sorts.orderValid ==> source.activeSort == v.sorts.committed)
        && (v.pages.shown.Some? ==>
              if RowidLost() then ShowsSomePage(v.pages, desk.system.data)
              else ShowsThePage(v.pages, v.sorts.committed, source.table, desk.system.data.hasRowid))
    }

    /** The rows on display are the page of that number of the committed order, the token lies on the
        same page, and next is enabled just as long as rows remain behind it. */
    static ghost predicate ShowsThePage(p: Pages, committed: Option<SortState>, table: seq<TableRow>, keyed: bool)
      requires p.shown.Some?
    {
      var order, lo, size := OrderOf(table, committed), (p.pager.page - 1) * p.pager.pageSize, p.pager.pageSize;
      && p.pager.page >= 1 && size > 0 && lo >= 0
      && p.shown.value.rows == Slice(order, lo, size)
      && p.shown.value.rowOffset == (if p.shown.value.rows == [] then 0 else lo)
      && TokenAt(p.token, order, ModeOf(keyed, committed), lo, size)
      && (p.pager.CanNext() <==> p.pager.page * size < |table|)
    }

    /** The rows on display are consecutive, but perhaps those of another page. */
    static ghost predicate ShowsSomePage(p: Pages, d: Data) {
      ShowsRow(p, d, (p.pager.page - 1) * p.pager.pageSize) || ShowsRow(p, d, p.token.offset)
    }

    lemma InStepAgrees()
      requires InStep()
      ensures Agrees()
    {
      hide Reachable, ShowsThePage, ShowsSomePage, GoodData;
      var s := desk.system;
      if s.v.isPaged && !s.v.sorts.sorting && s.v.sorts.orderValid {
        SettledOrderAgrees(s);
      }
      if s.v.isPaged && s.v.pages.shown.Some? {
        ShownAgrees(s);
      }
    }

    /** The theorems of every run about what is on display. */
    static lemma ShownAgrees(s: System)
      requires Reachable(s) && s.v.isPaged && !s.v.isCsv && s.v.pages.shown.Some?
      ensures s.begun && (Adrift(s) ==> s.data.hasRowid)
      ensures if Adrift(s) then ShowsSomePage(s.v.pages, s.data)
        else ShowsThePage(s.v.pages, s.v.sorts.committed, s.data.table, s.data.hasRowid)
    {
      hide Reachable, OrderOf, TokenAt, Adrift, ShowsRow, Keyed;
      if Adrift(s) {
        AdriftDisplay(s);
      } else {
        DisplayAgrees(s);
        NextEnabled(s);
      }
    }
  }

  /** However long the user browses, loads other tables, sorts, cancels and pages, and however the
      engine fails: after every turn the source is on the order that is marked in the header once no
      sort is under way, and the display is a page of that order, unless a reopen has lost the row id. */
  method Browse(turns: seq<Turn>) returns (session: SqliteSession)
    requires forall i | 0 <= i < |turns| :: Sound(turns[i])
    ensures session.InStep() && session.Agrees()
  {
    hide SqliteSession.InStep, SqliteSession.Agrees;
    session := new SqliteSession();
    for i := 0 to |turns|
      invariant fresh(session) && fresh(session.desk) && fresh(session.desk.viewer)
      invariant session.source != null ==> fresh(session.source)
      invariant session.InStep()
    {
      session.Turn(turns[i]);
    }
    session.InStepAgrees();
  }
}
