/** The UI thread at work: the viewer object, the signals it has not handled yet and the jobs its
    workers have not taken yet.  A ghost copy of the protocol's system moves along, one protocol step
    for every handler that runs, so what holds in every run of the protocol holds of the object. */
module ViewerDesk {
  import opened TableSource
  import opened PagerState
  import opened SqlitePaging
  import opened ViewerState
  import opened ViewerProtocol
  import opened DataTableViewer

  datatype Act =
    | PressPage(button: Button)
    | PressSort(column: nat)
    | PressCancel
    | LeaveView
    | HandleSignal(configured: Option<int>)  // the oldest one, under the configured page size
    | ReportCount(ok: bool)                  // the row count of the SQLite table
    | StraySignal(signal: Signal)            // from the worker of an earlier view

  /** What the UI thread on its own may change: within a view only the viewer and the queues; with
      the view it leaves the worker. */
  ghost predicate Later(before: System, after: System) {
    && after.data == before.data
    && if after.v.generation == before.v.generation then
         && after.v.opGen >= before.v.opGen && after.v.isPaged == before.v.isPaged && after.v.isCsv == before.v.isCsv
         && after.parked == before.parked && after.worker == before.worker && after.order == before.order
         && after.begun == before.begun && after.announced == before.announced
         && after.latched == before.latched && after.lost == before.lost
       else
         && after.v.generation > before.v.generation && after.v.opGen > before.v.opGen && !after.v.isPaged
         && after.parked == None && after.worker == Worker.Idle && after.order == None
         && !after.begun && !after.announced && !after.latched && !after.lost
  }

  /** Every handler moves on within its view, or leaves it. */
  ghost predicate MovesOn(v: Viewer, r: (Viewer, seq<Job>)) {
    if r.0.generation == v.generation then r.0.opGen >= v.opGen && r.0.isPaged == v.isPaged && r.0.isCsv == v.isCsv
    else r.0.generation > v.generation && r.0.opGen > v.opGen && !r.0.isPaged && r.1 == []
  }

  lemma ClicksMoveOn(v: Viewer, button: Button, column: nat)
    ensures MovesOn(v, OnPageClicked(v, button)) && MovesOn(v, OnSortClicked(v, column)) && MovesOn(v, CancelSort(v))
    ensures MovesOn(v, (CancelPending(v), []))
  {
  }

  lemma HandlingMovesOn(v: Viewer, signal: Signal, pageSize: int)
    ensures MovesOn(v, Handle(v, signal, pageSize))
  {
  }

  lemma CountMovesOn(v: Viewer, ok: bool, rows: int)
    ensures MovesOn(v, (OnCountCompleted(v, v.generation, ok, rows), []))
  {
  }

  class Desk {
    const viewer: DataTableViewer
    var queue: seq<Signal>
    var taken: nat            // jobs of the viewer that have left its queue
    var rows: nat             // what counting the rows of the table would find
    ghost var system: System

    constructor ()
      ensures fresh(viewer) && InStep() && system == START
    {
      viewer := new DataTableViewer();
      queue, taken, rows, system := [], 0, 0, START;
      new;
      Begun();
    }

    ghost predicate InStep()
      reads this, viewer
    {
      && viewer.State() == system.v && viewer.hasWorker == viewer.isPaged
      && taken <= |viewer.sent| && system.jobs == viewer.sent[taken..]
      && system.signals == queue && rows == |system.data.table| && Reachable(system)
    }

    lemma Matches()
      requires InStep()
      ensures viewer.State() == system.v
    {
    }

    /** The protocol makes the step that the handler has just made. */
    method Settle(ghost e: Event, ghost after: System, generation: nat)
      requires Reachable(system) && Steps(system, e, after)
      requires viewer.State() == after.v && viewer.hasWorker == viewer.isPaged && after.signals == queue
      requires rows == |after.data.table|
      requires taken <= |viewer.sent| && (viewer.generation != generation ==> after.jobs == [])
      requires viewer.generation == generation ==> after.jobs == viewer.sent[taken..]
      modifies `taken, `system
      ensures InStep() && system == after
    {
      hide Steps, Reachable;
      Extends(system, e, after);
      system := after;
      if viewer.generation != generation {
        taken := |viewer.sent|;
      }
    }

    method Perform(act: Act)
      requires InStep()
      modifies this, viewer
      ensures InStep() && Later(old(system), system)
    {
      hide Reachable, Steps;
      match act
      case PressPage(button) => PressPageButton(button);
      case PressSort(column) => PressSortHeader(column);
      case PressCancel => PressCancelButton();
      case LeaveView => Leave();
      case HandleSignal(configured) => HandleOldest(configured);
      case ReportCount(ok) => Count(ok);
      case StraySignal(signal) => Stray(signal);
    }

    /** What the UI thread does while a worker is busy, or between two of its jobs. */
    method PerformAll(acts: seq<Act>)
      requires InStep()
      modifies this, viewer
      ensures InStep() && Later(old(system), system)
    {
      hide InStep;
      for i := 0 to |acts|
        invariant InStep() && Later(old(system), system)
      {
        Perform(acts[i]);
      }
    }

    method PressPageButton(button: Button)
      requires InStep()
      modifies this, viewer
      ensures InStep() && Later(old(system), system)
    {
      hide Reachable, OnPageClicked, Stale, MovesOn;
      var generation := viewer.generation;
      match button {
        case FirstButton => viewer.OnFirstPageClicked();
        case PrevButton => viewer.OnPrevPageClicked();
        case NextButton => viewer.OnNextPageClicked();
        case LastButton => viewer.OnLastPageClicked();
      }
      ClicksMoveOn(system.v, button, 0);
      Settle(ClickPage(button), Acts(system, OnPageClicked(system.v, button)), generation);
    }

    method PressSortHeader(column: nat)
      requires InStep()
      modifies this, viewer
      ensures InStep() && Later(old(system), system)
    {
      hide Reachable, ViewerState.OnSortClicked, Stale;
      var generation := viewer.generation;
      viewer.OnSortClicked(column);
      ClicksMoveOn(system.v, FirstButton, column);
      Settle(ClickSort(column), Acts(system, ViewerState.OnSortClicked(system.v, column)), generation);
    }

    method PressCancelButton()
      requires InStep()
      modifies this, viewer
      ensures InStep() && Later(old(system), system)
    {
      hide Reachable, ViewerState.CancelSort, Stale;
      var generation := viewer.generation;
      viewer.CancelSort();
      ClicksMoveOn(system.v, FirstButton, 0);
      Settle(ClickCancel, Acts(system, ViewerState.CancelSort(system.v)), generation);
    }

    method Leave()
      requires InStep()
      modifies this, viewer
      ensures InStep() && Later(old(system), system)
    {
      hide Reachable, ViewerState.CancelPending, Stale;
      var generation := viewer.generation;
      viewer.CancelPending();
      ClicksMoveOn(system.v, FirstButton, 0);
      Settle(Retire, Acts(system, (ViewerState.CancelPending(system.v), [])), generation);
    }

    method HandleOldest(configured: Option<int>)
      requires InStep()
      modifies this, viewer
      ensures InStep() && Later(old(system), system)
    {
      hide Reachable, Handle, Stale;
      if queue == [] {
        return;
      }
      var signal, generation, pageSize := queue[0], viewer.generation, NormalizePageRows(configured);
      queue := queue[1..];
      Dispatch(signal, configured);
      HandlingMovesOn(system.v, signal, pageSize);
      ghost var popped := system.(signals := system.signals[1..]);
      Settle(Deliver(pageSize), Acts(popped, Handle(system.v, signal, pageSize)), generation);
    }

    /** The slot of a signal. */
    method Dispatch(signal: Signal, configured: Option<int>)
      requires viewer.hasWorker == viewer.isPaged
      modifies viewer
      ensures viewer.hasWorker == viewer.isPaged
      ensures var (v, jobs) := Handle(old(viewer.State()), signal, NormalizePageRows(configured));
        viewer.State() == v && viewer.sent == old(viewer.sent) + jobs
    {
      hide ViewerState.OnOpenCompleted, ViewerState.OnSortCompleted, ViewerState.OnPageReady;
      hide ViewerState.OnIndexProgress;
      match signal
      case OpenCompleted(_, _, _, _) => viewer.OnOpenCompleted(signal, configured);
      case SortCompleted(_, _, _, _) => viewer.OnSortCompleted(signal);
      case PageReady(_, _, _) => viewer.OnPageReady(signal);
      case IndexProgress(_, _, _, _) => viewer.OnIndexProgress(signal);
    }

    method Count(ok: bool)
      requires InStep()
      modifies this, viewer
      ensures InStep() && Later(old(system), system)
    {
      hide Reachable, ViewerState.OnCountCompleted, Stale;
      if viewer.counts.requested && !viewer.isCsv {
        var generation := viewer.generation;
        viewer.OnCountCompleted(generation, ok, rows);
        CountMovesOn(system.v, ok, rows);
        Settle(CountDone(ok), Acts(system, (ViewerState.OnCountCompleted(system.v, generation, ok, rows), [])),
            generation);
      }
    }

    method Stray(signal: Signal)
      requires InStep()
      modifies this, viewer
      ensures InStep() && Later(old(system), system)
    {
      hide Reachable, Stale;
      if signal.viewGen < viewer.generation {
        queue := queue + [signal];
        Settle(LateSignal(signal), system.(signals := system.signals + [signal]), viewer.generation);
      }
    }

    /** Another file or table is opened; it comes with a worker of its own. */
    method Open(csv: bool, rowCount: nat, ghost data: Data)
      requires InStep() && GoodData(data, csv) && rowCount == |data.table|
      modifies this, viewer
      ensures InStep() && system == Acts(old(system), LoadSelectedTable(old(system.v), csv)).(data := data)
    {
      hide Reachable, Stale, GoodData;
      ghost var after := Acts(system, LoadSelectedTable(system.v, csv)).(data := data);
      viewer.LoadSelectedTable(csv);
      rows := rowCount;
      taken := |viewer.sent| - 1;
      Settle(Load(csv, data), after, viewer.generation);
    }

    // ---- The worker's side ---------------------------------------------------------------

    /** The oldest job leaves the queue, whatever becomes of it. */
    method Take(ghost e: Event, ghost after: System)
      requires InStep() && system.jobs != [] && Steps(system, e, after)
      requires after.v == system.v && after.signals == system.signals
      requires after.data == system.data.(hasRowid := after.data.hasRowid)
      requires after.jobs == system.jobs[1..]
      modifies `taken, `system
      ensures InStep() && system == after
    {
      hide Reachable, Steps;
      taken := taken + 1;
      assert viewer.sent[taken..] == after.jobs;
      Settle(e, after, viewer.generation);
    }

    /** The worker moves on by itself. */
    ghost method Progress(e: Event, after: System)
      requires InStep() && Steps(system, e, after)
      requires after.v == system.v && after.data == system.data && after.signals == system.signals
      requires after.jobs == system.jobs
      modifies `system
      ensures InStep() && system == after
    {
      hide Reachable, Steps;
      Extends(system, e, after);
      system := after;
    }

    /** A signal is on its way to the UI thread. */
    method Send(signal: Signal, ghost e: Event, ghost after: System)
      requires InStep() && Steps(system, e, after)
      requires after.v == system.v && after.data == system.data && after.jobs == system.jobs
      requires after.signals == system.signals + [signal]
      modifies `queue, `taken, `system
      ensures InStep() && system == after
    {
      hide Reachable, Steps;
      queue := queue + [signal];
      Settle(e, after, viewer.generation);
    }
  }
}
