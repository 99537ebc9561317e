/** Browsing CSV files: the viewer object and the worker object of its file, with the queues between
    them.  Every turn of the worker is a step or a few steps of the protocol, so what is displayed is
    known in every run: while indexing goes on, after it has ended, and after it has failed. */
module CsvSession {
  import opened TableSource
  import opened SqlitePaging
  import opened PagerState
  import opened ViewerState
  import opened ViewerProtocol
  import opened ViewerDesk
  import opened ViewerSources
  import opened CsvGrammar
  import opened CsvRecordScanner
  import Csv = CsvFileSource
  import W = SourceWorker

  /** The UI thread acts while the worker is at work; a slice reports its progress in between. */
  datatype Turn =
    | Acting(acts: seq<Act>)
    | Loading(bytes: seq<Byte>, delimiter: Byte)
    | Working(cancel: CancelCheck, acts: seq<Act>)
    | Indexing(cancel: CancelCheck, stat: Csv.StatOutcome, io: bool, acts: seq<Act>, more: seq<Act>)

  predicate Sound(turn: Turn) {
    turn.Loading? ==>
      && ValidDelimiter(turn.delimiter) && turn.delimiter != 0
      && |Csv.DataRecords(Decode(turn.bytes, turn.delimiter))| + MAX_FETCH_ROWS < INT64_MAX
  }

  /** A reply of the worker as the protocol sees it; the viewer treats all errors alike. */
  function AsReply(viewGen: nat, opGen: nat, result: Csv.PageResult): (reply: Signal)
    ensures reply.PageReady? && reply.viewGen == viewGen && reply.opGen == opGen
    ensures reply.result == if result.PageOk? then PageOk(AsPage(result.page)) else PageError(Engine)
  {
    PageReady(viewGen, opGen, if result.PageOk? then PageOk(AsPage(result.page)) else PageError(Engine))
  }

  /** The request the worker has parked, as the job it came from. */
  function AsJob(parked: Option<W.PendingPageRequest>): Option<Job> {
    if parked == None then None
    else Some(PageJob(parked.value.viewGen, parked.value.opGen, parked.value.query, parked.value.pageSize))
  }

  class CsvSession {
    const desk: Desk
    var worker: W.SourceWorker?
    var bytes: seq<Byte>
    var delimiter: Byte

    constructor ()
      ensures fresh(desk) && fresh(desk.viewer) && worker == null && InStep()
    {
      desk := new Desk();
      worker, bytes, delimiter := null, [], 0;
    }

    /** Everything the worker holds on to. */
    ghost function Reach(): set<object>
      reads this, worker, if worker != null then {worker.source} else {}
    {
      if worker == null then {}
      else {worker, worker.gens} + if worker.source == null then {} else
        {worker.source, worker.source.index} +
        if worker.source.indexScanner == null then {} else {worker.source.indexScanner}
    }

    /** Between two turns the worker is idle, and everything it knows is what the protocol knows. */
    ghost predicate InStep()
      reads this, desk, desk.viewer, Reach()
    {
      && desk.InStep() && desk.system.worker.Idle?
      && (desk.system.v.isPaged ==>
            && worker != null && worker.Valid() && Synchronised(worker, desk.system)
            && Attached(worker, desk.system) && (worker.Stopped() && desk.system.announced ==> desk.system.latched))
    }

    /** The shared counters are where the UI thread has moved them. */
    ghost predicate Synchronised(worker: W.SourceWorker, s: System)
      reads worker.gens
    {
      worker.gens.viewGen == s.v.generation && worker.gens.opGen == s.v.opGen
    }

    ghost predicate Attached(worker: W.SourceWorker, s: System)
      reads `bytes, `delimiter, worker, worker.source, if worker.source != null then {worker.source.index} else {}
    {
      && s.v.isCsv && s.data == CsvData(bytes, delimiter) && ValidDelimiter(delimiter) && delimiter != 0
      && s.order == None && !s.lost && s.parked == AsJob(worker.parked)
      && (s.announced ==> Serves(worker, s.v.generation)) && (s.latched ==> s.announced && worker.Stopped())
      && |worker.slices| <= 1 && (worker.slices != [] ==> s.announced && worker.slices[0] == s.v.generation)
    }

    /** The source is open on the file. */
    ghost predicate Serves(worker: W.SourceWorker, generation: nat)
      reads `bytes, `delimiter, worker, worker.source, if worker.source != null then {worker.source.index} else {}
    {
      && worker.openView == Some(generation) && worker.source != null && worker.source.IsOpen()
      && worker.source.file == bytes && worker.source.delimiter == delimiter
    }

    method Load(bytes: seq<Byte>, delimiter: Byte)
      requires InStep() && Sound(Loading(bytes, delimiter))
      modifies this, desk, desk.viewer
      ensures InStep() && worker != null && fresh(worker) && fresh(worker.gens) && worker.source == null
    {
      hide Reachable, Decode;
      this.bytes, this.delimiter := bytes, delimiter;
      var rows := |Csv.DataRecords(Decode(bytes, delimiter))|;
      desk.Open(true, rows, CsvData(bytes, delimiter));
      var gens := new W.Generations(desk.viewer.generation, desk.viewer.opGen);
      worker := new W.SourceWorker(gens);
    }

    /** The UI thread acts on its own. */
    method Act(acts: seq<Act>)
      requires InStep()
      modifies desk, desk.viewer, if worker != null then {worker.gens} else {}
      ensures InStep()
    {
      hide Reachable, W.SourceWorker.Valid, CsvData, Serves;
      var shared := desk.viewer.isPaged;
      desk.PerformAll(acts);
      if shared {
        worker.Raise(desk.viewer.generation, desk.viewer.opGen);
      }
    }

    /** While the worker was at work the counters have moved; acts that do not bring the viewer to
        them are not what has happened. */
    predicate Consistent()
      requires worker != null
      reads this, desk, desk.viewer, worker, worker.gens
    {
      worker.gens.viewGen == desk.viewer.generation && worker.gens.opGen == desk.viewer.opGen
    }

    /** The worker opens the file. */
    method OpenFile(job: Job, cancel: CancelCheck, acts: seq<Act>) returns (consistent: bool)
      requires InStep() && desk.system.v.isPaged && desk.system.jobs != [] && job == desk.system.jobs[0]
      requires job.OpenJob? && !Stale(desk.system.v, job) && !desk.system.announced
      modifies desk, desk.viewer, Reach()
      ensures consistent ==> InStep()
      ensures worker == old(worker) && fresh(Reach() - old(Reach()))
    {
      hide Reachable, CsvData, W.SourceWorker.Valid, OpenHasEnded, Desk.InStep, InStep, Opens, Later;
      var current, ok := StartOpen(job, cancel);
      assert desk !in Reach() && desk.viewer !in Reach();
      ghost var s := desk.system;
      desk.PerformAll(acts);
      OpensLater(s, desk.system, job, ok);
      consistent := Consistent();
      if consistent {
        FinishOpen(job, current, ok);
      }
    }

    /** What the worker is left with, and whether the open is still wanted. */
    ghost predicate OpenHasEnded(job: Job, current: bool, ok: bool)
      reads this, Reach()
    {
      && worker != null && worker.Valid() && worker.parked == None && (ok ==> current)
      && current == !worker.IsStale(job.viewGen, job.opGen) && ValidDelimiter(delimiter) && delimiter != 0
      && (ok ==> Serves(worker, job.viewGen) && !worker.source.Latched())
      && (ok ==> worker.source.knownTotal.Some? == worker.source.index.completeFlag)
      && |worker.slices| <= 1 && (worker.slices != [] ==> ok && worker.slices[0] == job.viewGen)
    }

    ghost predicate Opens(s: System, job: Job, ok: bool)
      reads `bytes, `delimiter
    {
      && s.worker == Busy(job, OpenCompleted(job.viewGen, job.opGen, ok, false)) && job.OpenJob?
      && job.viewGen == s.v.generation
      && s.v.isPaged && s.v.isCsv && s.data == CsvData(bytes, delimiter)
      && s.order == None && !s.lost && s.parked == None && !s.announced && !s.latched
    }

    lemma OpensLater(before: System, after: System, job: Job, ok: bool)
      requires Opens(before, job, ok) && Later(before, after)
      ensures if after.v.isPaged then Opens(after, job, ok)
              else after.worker.Idle? && after.v.generation != job.viewGen
    {
    }

    method StartOpen(job: Job, cancel: CancelCheck) returns (current: bool, ok: bool)
      requires InStep() && desk.system.v.isPaged && desk.system.jobs != [] && job == desk.system.jobs[0]
      requires job.OpenJob? && !Stale(desk.system.v, job) && !desk.system.announced
      modifies desk, Reach()
      ensures desk.InStep() && Opens(desk.system, job, ok) && OpenHasEnded(job, current, ok)
      ensures worker != null && worker == old(worker) && fresh(Reach() - old(Reach()))
    {
      hide Reachable, CsvData, W.SourceWorker.Valid, OpenHasEnded, Attends, Opens, Steps, InStep, Beginning;
      hide Desk.InStep;
      ghost var s := desk.system;
      JobAttends(job);
      current, ok := OpenWorker(job, cancel);
      ghost var e, t := OpenTaken(s, job, ok);
      assert desk !in Reach();
      desk.Take(e, t);
    }

    method OpenWorker(job: Job, cancel: CancelCheck) returns (current: bool, ok: bool)
      requires worker != null && worker.Valid() && ValidDelimiter(delimiter) && delimiter != 0
      requires !worker.IsStale(job.viewGen, job.opGen) && worker.slices == []
      modifies Reach()
      ensures OpenHasEnded(job, current, ok)
      ensures worker == old(worker) && fresh(Reach() - old(Reach()))
    {
      hide W.SourceWorker.Valid, Csv.CsvFileSource.IsOpen, Csv.Unreadable, Csv.CsvFileSource.Sampled, NeverFires;
      var outcome, quiet := worker.OpenDescriptor(job.viewGen, job.opGen, bytes, delimiter, cancel);
      current, ok := outcome.Some?, outcome.Some? && outcome.value;
    }

    /** The oldest job is one the worker may take. */
    ghost predicate Attends(s: System, job: Job)
      reads `bytes, `delimiter
    {
      && s.v.isPaged && s.v.isCsv && s.worker.Idle? && s.jobs != [] && job == s.jobs[0] && !Stale(s.v, job)
      && s.order == None && !s.lost && s.data == CsvData(bytes, delimiter)
      && (job.OpenJob? ==> !s.announced && !s.latched)
    }

    lemma JobAttends(job: Job)
      requires InStep() && desk.system.v.isPaged && desk.system.jobs != [] && job == desk.system.jobs[0]
      requires !Stale(desk.system.v, job) && (job.OpenJob? ==> !desk.system.announced)
      ensures desk.InStep() && Attends(desk.system, job) && worker != null && worker.Valid()
      ensures !worker.IsStale(job.viewGen, job.opGen) && ValidDelimiter(delimiter) && delimiter != 0
      ensures desk.system.announced ==> Serves(worker, job.viewGen)
      ensures desk.system.announced && worker.Stopped() ==> desk.system.latched
      ensures desk.system.latched ==> worker.Stopped()
      ensures |worker.slices| <= 1 && (worker.slices != [] ==> desk.system.announced && worker.slices[0] == job.viewGen)
    {
      hide Reachable, CsvData, W.SourceWorker.Valid, Serves, W.SourceWorker.Stopped;
    }

    /** Taking an open is a step of the protocol. */
    lemma OpenTaken(s: System, job: Job, ok: bool) returns (e: Event, t: System)
      requires Attends(s, job) && job.OpenJob?
      ensures Steps(s, e, t) && Opens(t, job, ok)
      ensures t.v == s.v && t.data == s.data && t.signals == s.signals && t.jobs == s.jobs[1..]
    {
      NoRowid();
      var reply := OpenCompleted(job.viewGen, job.opGen, ok, false);
      e, t := Begin(reply, None, false), Beginning(s, reply, None, false);
    }

    lemma NoRowid()
      ensures !CsvData(bytes, delimiter).hasRowid
    {
    }

    /** The check at the end of the open, and what is sent behind it. */
    method FinishOpen(job: Job, current: bool, ok: bool)
      requires desk.InStep() && OpenHasEnded(job, current, ok) && Consistent()
      requires if desk.system.v.isPaged then Opens(desk.system, job, ok)
          else desk.system.worker.Idle? && desk.system.v.generation != job.viewGen
      modifies desk
      ensures InStep()
    {
      hide Reachable, CsvData, W.SourceWorker.Valid, Csv.CsvFileSource.Valid, Csv.CsvFileSource.IsOpen, Desk.InStep;
      desk.Matches();
      ghost var s := desk.system;
      if !current {
        if s.v.isPaged {
          desk.Progress(Discard, s.(worker := Worker.Idle));
        }
        return;
      }
      var reply := OpenCompleted(job.viewGen, job.opGen, ok, false);
      desk.Send(reply, Emit, Emission(s));
      if ok && worker.source.knownTotal.Some? {
        SendTotal();
      }
    }

    /** A file that the open has indexed to its end is reported as complete. */
    method SendTotal()
      requires InStep() && desk.system.v.isPaged && desk.system.announced && !desk.system.latched
      requires worker != null && worker.source != null && worker.source.knownTotal.Some?
      requires worker.source.index.completeFlag && !worker.source.index.failed
      modifies desk
      ensures InStep()
    {
      hide Reachable, CsvData, W.SourceWorker.Valid, Csv.CsvFileSource.Valid, Csv.CsvFileSource.IsOpen, Desk.InStep;
      desk.Matches();
      WorkerHasSource();
      KnownTotalIsExact();
      var total := IndexProgress(desk.viewer.generation, worker.source.knownTotal.value, true, false);
      desk.Send(total, IndexTick(total.rows, true, false), desk.system.(signals := desk.system.signals + [total]));
    }

    /** A failure that indexing has latched is latched for the protocol as well. */
    ghost method Latch()
      requires desk.InStep() && desk.system.worker.Idle?
      requires desk.system.v.isPaged ==>
        worker != null && worker.Valid() && Synchronised(worker, desk.system) && Attached(worker, desk.system)
      modifies desk`system
      ensures InStep()
    {
      hide Reachable, CsvData, W.SourceWorker.Valid;
      var s := desk.system;
      if s.v.isPaged && s.announced && worker.Stopped() {
        desk.Progress(Event.Latch, s.(latched := true));
      }
    }

    /** The worker answers or parks a request for a page. */
    method ServePage(job: Job, cancel: CancelCheck, acts: seq<Act>) returns (consistent: bool)
      requires InStep() && desk.system.v.isPaged && desk.system.jobs != [] && job == desk.system.jobs[0]
      requires job.PageJob? && !Stale(desk.system.v, job) && desk.system.announced
      modifies desk, desk.viewer, Reach()
      ensures consistent ==> InStep()
      ensures worker == old(worker) && fresh(Reach() - old(Reach()))
    {
      hide Reachable, CsvData, W.SourceWorker.Valid, PageHasEnded, Desk.InStep, InStep, Pages, Later;
      var answer, parks := StartPage(job, cancel);
      assert desk !in Reach() && desk.viewer !in Reach();
      ghost var s := desk.system;
      desk.PerformAll(acts);
      PagesLater(s, desk.system, job, answer, parks);
      consistent := Consistent();
      if consistent {
        FinishPage(job, answer, parks);
      }
    }

    /** The request is parked or decided, and the worker knows whether it is still wanted. */
    ghost predicate PageHasEnded(job: Job, answer: Option<Csv.PageResult>, parks: bool)
      reads this, Reach()
    {
      && worker != null && worker.Valid() && Serves(worker, job.viewGen)
      && (answer.Some? ==> !parks && !worker.IsStale(job.viewGen, job.opGen))
      && (answer == None && !parks ==> worker.IsStale(job.viewGen, job.opGen))
      && |worker.slices| <= 1 && (worker.slices != [] ==> worker.slices[0] == job.viewGen)
    }

    ghost predicate Pages(s: System, job: Job, answer: Option<Csv.PageResult>, parks: bool)
      requires worker != null
      reads `bytes, `delimiter, `worker, worker, worker.source,
          if worker.source != null then {worker.source.index} else {}
    {
      && s.v.isPaged && s.v.isCsv && s.v.generation == job.viewGen && s.data == CsvData(bytes, delimiter)
      && ValidDelimiter(delimiter) && delimiter != 0 && s.order == None && !s.lost && s.announced
      && (s.latched ==> worker.Stopped())
      && s.parked == AsJob(worker.parked)
      && if parks then s.worker.Idle? else
           && s.worker.Busy? && s.worker.job == job
           && (answer.Some? ==> s.worker.reply == AsReply(job.viewGen, job.opGen, answer.value))
    }

    lemma PagesLater(before: System, after: System, job: Job, answer: Option<Csv.PageResult>, parks: bool)
      requires worker != null && Pages(before, job, answer, parks) && Later(before, after)
      ensures if after.v.isPaged then Pages(after, job, answer, parks)
              else after.worker.Idle? && after.v.generation != job.viewGen
    {
    }

    method StartPage(job: Job, cancel: CancelCheck) returns (answer: Option<Csv.PageResult>, ghost parks: bool)
      requires InStep() && desk.system.v.isPaged && desk.system.jobs != [] && job == desk.system.jobs[0]
      requires job.PageJob? && !Stale(desk.system.v, job) && desk.system.announced
      modifies desk, Reach()
      ensures worker != null && worker == old(worker) && fresh(Reach() - old(Reach()))
      ensures desk.InStep() && PageHasEnded(job, answer, parks) && Pages(desk.system, job, answer, parks)
    {
      hide Reachable, CsvData, W.SourceWorker.Valid, Answers, Serves, PageHasEnded, AsReply, Steps, InStep, Attends;
      hide Pages, Beginning, W.SourceWorker.Stopped, Desk.InStep, Stale, AsJob;
      ghost var s := desk.system;
      JobAttends(job);
      ghost var reply;
      answer, parks, reply := AskWorker(job, cancel, s.latched);
      assert desk !in Reach();
      TakePage(job, answer, parks, reply);
    }

    /** The page job leaves the queue. */
    method TakePage(job: Job, answer: Option<Csv.PageResult>, ghost parks: bool, ghost reply: Signal)
      requires desk.InStep() && Attends(desk.system, job) && job.PageJob? && desk.system.announced
      requires ValidDelimiter(delimiter) && delimiter != 0
      requires worker != null && AsJob(worker.parked) == (if parks then Some(job) else None)
      requires desk.system.latched ==> worker.Stopped()
      requires desk !in Reach() && PageHasEnded(job, answer, parks)
      requires reply.PageReady? && reply.viewGen == job.viewGen && reply.opGen == job.opGen
      requires Answers(CsvData(bytes, delimiter), true, desk.system.latched, false, None, job.query, job.size,
          reply.result)
      requires answer.Some? ==> reply == AsReply(job.viewGen, job.opGen, answer.value)
      modifies desk
      ensures desk.InStep() && Pages(desk.system, job, answer, parks) && PageHasEnded(job, answer, parks)
      ensures Reach() == old(Reach())
    {
      hide Reachable, CsvData, Answers, AsReply, Steps, Pages, Beginning, W.SourceWorker.Stopped, Desk.InStep, AsJob;
      hide PageHasEnded;
      ghost var s := desk.system;
      HasJob(s, job);
      ghost var e, t := PageTaken(s, job, answer, parks, reply);
      desk.Take(e, t);
    }

    lemma HasJob(s: System, job: Job)
      requires Attends(s, job)
      ensures s.jobs != []
    {
    }

    /** Taking a page job is a step of the protocol: the job is parked, or a reply is on its way. */
    lemma PageTaken(s: System, job: Job, answer: Option<Csv.PageResult>, parks: bool, reply: Signal)
      returns (e: Event, t: System)
      requires Attends(s, job) && job.PageJob? && s.announced && ValidDelimiter(delimiter) && delimiter != 0
      requires worker != null && AsJob(worker.parked) == (if parks then Some(job) else None)
      requires s.latched ==> worker.Stopped()
      requires reply.PageReady? && reply.viewGen == job.viewGen && reply.opGen == job.opGen
      requires Answers(CsvData(bytes, delimiter), true, s.latched, false, None, job.query, job.size, reply.result)
      requires answer.Some? ==> reply == AsReply(job.viewGen, job.opGen, answer.value)
      ensures Steps(s, e, t) && Pages(t, job, answer, parks)
      ensures t.v == s.v && t.data == s.data && t.signals == s.signals && t.jobs == s.jobs[1..]
    {
      hide Answers, CsvData, AsReply, W.SourceWorker.Stopped;
      if parks {
        e, t := Park, s.(jobs := s.jobs[1..], parked := Some(job));
      } else {
        e, t := Begin(reply, None, false), Beginning(s, reply, None, false);
      }
    }

    /** The slot of the query, and what its reply will be if the UI thread stays put. */
    method AskWorker(job: Job, cancel: CancelCheck, ghost latched: bool)
      returns (answer: Option<Csv.PageResult>, ghost parks: bool, ghost reply: Signal)
      requires worker != null && worker.Valid() && Serves(worker, job.viewGen) && (worker.Stopped() ==> latched)
      requires job.PageJob? && !worker.IsStale(job.viewGen, job.opGen)
      requires |worker.slices| <= 1 && (worker.slices != [] ==> worker.slices[0] == job.viewGen)
      modifies Reach()
      ensures worker == old(worker) && fresh(Reach() - old(Reach()))
      ensures PageHasEnded(job, answer, parks) && (old(worker.Stopped()) ==> worker.Stopped())
      ensures AsJob(worker.parked) == if parks then Some(job) else None
      ensures reply.PageReady? && reply.viewGen == job.viewGen && reply.opGen == job.opGen
      ensures Answers(CsvData(bytes, delimiter), true, latched, false, None, job.query, job.size, reply.result)
      ensures answer.Some? ==> reply == AsReply(job.viewGen, job.opGen, answer.value)
    {
      hide CsvData, W.SourceWorker.Valid, Csv.CsvFileSource.Valid, Csv.CsvFileSource.IsOpen, W.SourceWorker.Faithful;
      hide W.SourceWorker.ServedWell;
      hide Answers;
      parks := worker.Coverage(job.query, job.size) == Csv.Pending;
      ghost var covered, quiet := worker.Covered(job.query, job.size), true;
      answer, quiet := worker.Request(job.viewGen, job.opGen, job.query, job.size, cancel);
      WorkerHasSource();
      if answer.Some? {
        AnswerIsExecution(job, answer.value, latched, covered, quiet, cancel);
        reply := AsReply(job.viewGen, job.opGen, answer.value);
      } else {
        reply := AsReply(job.viewGen, job.opGen, Csv.PageError(Csv.Cancelled));
        NoPageIsExecution(latched, job);
      }
    }

    lemma NoPageIsExecution(latched: bool, job: Job)
      requires job.PageJob?
      ensures Answers(CsvData(bytes, delimiter), true, latched, false, None, job.query, job.size, PageError(Engine))
    {
    }

    /** A direct answer is one the protocol allows. */
    lemma AnswerIsExecution(job: Job, result: Csv.PageResult, latched: bool, covered: bool, quiet: bool,
                            cancel: CancelCheck)
      requires worker != null && worker.source != null && worker.source.Valid() && job.PageJob?
      requires worker.source.file == bytes && worker.source.delimiter == delimiter && worker.source.IsOpen()
      requires worker.Faithful(result, job.query, job.size, covered, quiet, cancel)
      requires !latched ==> worker.ServedWell(result, job.query, job.size)
      ensures Answers(CsvData(bytes, delimiter), true, latched, false, None, job.query, job.size,
          AsReply(job.viewGen, job.opGen, result).result)
    {
      hide Csv.CsvFileSource.Valid, Csv.CsvFileSource.PageShows, Decode;
      if result.PageOk? {
        CsvPagesFit(worker.source, result.page, job.query, job.size, latched);
      }
    }

    method FinishPage(job: Job, answer: Option<Csv.PageResult>, ghost parks: bool)
      requires desk.InStep() && PageHasEnded(job, answer, parks) && Consistent()
      requires if desk.system.v.isPaged then Pages(desk.system, job, answer, parks)
               else desk.system.worker.Idle? && desk.system.v.generation != job.viewGen
      modifies desk
      ensures InStep()
    {
      hide Reachable, CsvData, W.SourceWorker.Valid, Csv.CsvFileSource.Valid, Csv.CsvFileSource.IsOpen, Desk.InStep;
      desk.Matches();
      ghost var s := desk.system;
      if answer.Some? {
        var reply := AsReply(job.viewGen, job.opGen, answer.value);
        desk.Send(reply, Emit, Emission(s));
      } else if s.v.isPaged && !parks {
        desk.Progress(Discard, s.(worker := Worker.Idle));
      }
      Latch();
    }

    /** The worker runs an index slice. */
    method RunSlice(cancel: CancelCheck, stat: Csv.StatOutcome, io: bool, acts: seq<Act>, more: seq<Act>)
      returns (consistent: bool)
      requires InStep() && desk.system.v.isPaged && worker != null && worker.slices != []
      modifies desk, desk.viewer, Reach()
      ensures consistent ==> InStep()
      ensures worker == old(worker) && fresh(Reach() - old(Reach()))
    {
      hide InStep, SliceHasEnded, Desk.InStep, Slices;
      var view, request := desk.viewer.generation, worker.parked;
      var answer, tick := StartSlice(cancel, stat, io);
      consistent := EndSlice(view, request, answer, tick, acts, more);
    }

    /** What the slice has to tell reaches the UI thread, which acts meanwhile. */
    method EndSlice(view: nat, request: Option<W.PendingPageRequest>, answer: Option<Csv.PageResult>,
                    tick: Option<W.Signal>, acts: seq<Act>, more: seq<Act>)
      returns (consistent: bool)
      requires worker != null && desk.InStep() && SliceHasEnded(view, request, answer, tick)
      requires Slices(desk.system, view, request)
      modifies desk, desk.viewer
      ensures consistent ==> InStep()
    {
      hide InStep, SliceHasEnded, Desk.InStep, Slices, Woken, Later;
      assert desk !in Reach() && desk.viewer !in Reach();
      desk.PerformAll(acts);
      SlicesLater(old(desk.system), desk.system, view, request);
      consistent := ReportSlice(view, request, answer, tick);
      if consistent {
        consistent := WakeParked(view, request, answer, tick);
      }
      if consistent {
        ghost var s := desk.system;
        desk.PerformAll(more);
        WokenLater(s, desk.system, view, request, answer);
        consistent := Consistent();
      }
      if consistent {
        FinishSlice(view, request, answer, tick);
      }
    }

    /** What the slice leaves behind: perhaps a report, perhaps the answer to the parked request. */
    ghost predicate SliceHasEnded(view: nat, request: Option<W.PendingPageRequest>, answer: Option<Csv.PageResult>,
                                  tick: Option<W.Signal>)
      reads this, Reach()
    {
      && worker != null && worker.Valid() && Serves(worker, view)
      && |worker.slices| <= 1 && (worker.slices != [] ==> worker.slices[0] == view)
      && (worker.parked == None || worker.parked == request) && (request.Some? ==> request.value.viewGen <= view)
      && (answer.Some? ==>
            && request.Some? && worker.parked == None
            && Answers(CsvData(bytes, delimiter), true, false, false, None, request.value.query, request.value.pageSize,
                       AsReply(request.value.viewGen, request.value.opGen, answer.value).result))
      && (request.Some? && worker.parked == None ==>
            (answer == None <==> worker.IsStale(request.value.viewGen, request.value.opGen)))
      && (tick.Some? ==> tick.value.IndexProgressed? && tick.value.viewGen == view)
      && (tick.Some? && tick.value.isComplete ==> tick.value.rows == |CsvData(bytes, delimiter).table|)
    }

    /** The protocol before the parked request is looked at. */
    ghost predicate Slices(s: System, view: nat, request: Option<W.PendingPageRequest>)
      requires worker != null
      reads `bytes, `delimiter, `worker, worker, worker.source,
          if worker.source != null then {worker.source.index} else {}
    {
      && s.worker.Idle?
      && if !s.v.isPaged then s.v.generation > view else
           && s.v.generation == view && s.v.isCsv && s.data == CsvData(bytes, delimiter)
           && ValidDelimiter(delimiter) && delimiter != 0 && s.order == None && !s.lost && s.announced
           && (s.latched ==> worker.Stopped())
           && s.parked == AsJob(request)
    }

    /** ... and behind it. */
    ghost predicate Woken(s: System, view: nat, request: Option<W.PendingPageRequest>, answer: Option<Csv.PageResult>)
      requires worker != null
      reads `bytes, `delimiter, `worker, worker, worker.source,
          if worker.source != null then {worker.source.index} else {}
    {
      if !s.v.isPaged then s.v.generation > view && s.worker.Idle? else
        && s.v.generation == view && s.v.isCsv && s.data == CsvData(bytes, delimiter)
        && ValidDelimiter(delimiter) && delimiter != 0 && s.order == None && !s.lost && s.announced
        && (s.latched ==> worker.Stopped())
        && s.parked == AsJob(worker.parked)
        && if s.worker.Idle? then answer == None else
             && request.Some? && worker.parked == None && s.worker.job == AsJob(request).value
             && (answer.Some? ==> s.worker.reply == AsReply(request.value.viewGen, request.value.opGen, answer.value))
    }

    lemma SlicesLater(before: System, after: System, view: nat, request: Option<W.PendingPageRequest>)
      requires worker != null && Slices(before, view, request) && Later(before, after)
      ensures Slices(after, view, request)
    {
    }

    lemma WokenLater(before: System, after: System, view: nat, request: Option<W.PendingPageRequest>,
                     answer: Option<Csv.PageResult>)
      requires worker != null && Woken(before, view, request, answer) && Later(before, after)
      ensures Woken(after, view, request, answer)
    {
    }

    method StartSlice(cancel: CancelCheck, stat: Csv.StatOutcome, io: bool)
      returns (answer: Option<Csv.PageResult>, tick: Option<W.Signal>)
      requires InStep() && desk.system.v.isPaged && worker != null && worker.slices != []
      modifies Reach()
      ensures desk.InStep() && desk.system == old(desk.system)
      ensures worker == old(worker) && fresh(Reach() - old(Reach()))
      ensures SliceHasEnded(desk.viewer.generation, old(worker.parked), answer, tick)
      ensures Slices(desk.system, desk.viewer.generation, old(worker.parked))
    {
      hide Reachable, CsvData, W.SourceWorker.ServedWell, Csv.CsvFileSource.Valid, Csv.CsvFileSource.IsOpen, Answers;
      ghost var request, quiet := worker.parked, true;
      answer, quiet, tick := worker.IndexSlice(cancel, stat, io);
      if answer.Some? {
        WokenIsExecution(request.value, answer.value);
      }
      TotalIsCounted();
    }

    /** A woken request is answered as the protocol expects of a worker without a failure. */
    lemma WokenIsExecution(request: W.PendingPageRequest, result: Csv.PageResult)
      requires worker != null && worker.source != null
      requires worker.source.file == bytes && worker.source.delimiter == delimiter && worker.source.IsOpen()
      requires worker.ServedWell(result, request.query, request.pageSize)
      ensures Answers(CsvData(bytes, delimiter), true, false, false, None, request.query, request.pageSize,
                      AsReply(request.viewGen, request.opGen, result).result)
    {
      hide Csv.CsvFileSource.PageShows, Decode;
      if result.PageOk? {
        CsvServesFits(worker.source, result.page, request.query, request.pageSize, false);
      }
    }

    lemma TotalIsCounted()
      requires worker != null && worker.source != null && worker.source.file == bytes
      requires worker.source.delimiter == delimiter
      ensures worker.source.Total() == |CsvData(bytes, delimiter).table|
    {
    }

    /** The report is sent, unless the view was left before. */
    method ReportSlice(view: nat, request: Option<W.PendingPageRequest>, answer: Option<Csv.PageResult>,
                       tick: Option<W.Signal>)
      returns (consistent: bool)
      requires desk.InStep() && SliceHasEnded(view, request, answer, tick) && Slices(desk.system, view, request)
      modifies desk
      ensures desk.InStep() && Slices(desk.system, view, request)
    {
      hide Reachable, CsvData, W.SourceWorker.Valid, Csv.CsvFileSource.IsOpen, Answers;
      if tick == None {
        return true;
      }
      if desk.viewer.generation != view {
        return false;
      }
      var report := IndexProgress(view, tick.value.rows, tick.value.isComplete, tick.value.failed);
      desk.Send(report, IndexTick(report.rows, report.isComplete, report.failed),
          desk.system.(signals := desk.system.signals + [report]));
      return true;
    }

    /** The parked request is dropped, or taken up again, or stays. */
    method WakeParked(view: nat, request: Option<W.PendingPageRequest>, answer: Option<Csv.PageResult>,
                      ghost tick: Option<W.Signal>)
      returns (consistent: bool)
      requires desk.InStep() && SliceHasEnded(view, request, answer, tick) && Slices(desk.system, view, request)
      modifies desk
      ensures desk.InStep() && (consistent ==> Woken(desk.system, view, request, answer))
    {
      hide Reachable, CsvData, W.SourceWorker.Valid, Csv.CsvFileSource.IsOpen, Answers, Desk.InStep;
      desk.Matches();
      ghost var s := desk.system;
      var stale := request.Some? &&
        (!desk.viewer.isPaged || Stale(desk.viewer.State(), AsJob(request).value));
      if answer.Some? && stale {
        return false;
      }
      if s.v.isPaged && request.Some? && worker.parked == None {
        if stale {
          desk.Progress(DropParked, s.(parked := None));
        } else {
          var result := if answer.Some? then answer.value else Csv.PageError(Csv.Cancelled);
          var reply := AsReply(request.value.viewGen, request.value.opGen, result);
          ExactIsEnough(AsJob(request).value, s.latched, result);
          desk.Progress(Event.Wake(reply), s.(parked := None, worker := Busy(AsJob(request).value, reply)));
        }
      }
      return true;
    }

    lemma ExactIsEnough(job: Job, latched: bool, result: Csv.PageResult)
      requires job.PageJob? && (result.PageOk? ==>
        Answers(CsvData(bytes, delimiter), true, false, false, None, job.query, job.size,
            AsReply(job.viewGen, job.opGen, result).result))
      ensures Answers(CsvData(bytes, delimiter), true, latched, false, None, job.query, job.size,
          AsReply(job.viewGen, job.opGen, result).result)
    {
    }

    /** The check at the end of the answer. */
    method FinishSlice(view: nat, request: Option<W.PendingPageRequest>, answer: Option<Csv.PageResult>,
                       ghost tick: Option<W.Signal>)
      requires desk.InStep() && SliceHasEnded(view, request, answer, tick) && Woken(desk.system, view, request, answer)
      requires Consistent()
      modifies desk
      ensures InStep()
    {
      hide Reachable, CsvData, W.SourceWorker.Valid, Csv.CsvFileSource.Valid, Csv.CsvFileSource.IsOpen, Answers;
      hide Desk.InStep;
      desk.Matches();
      ghost var s := desk.system;
      if answer.Some? {
        var reply := AsReply(request.value.viewGen, request.value.opGen, answer.value);
        desk.Send(reply, Emit, Emission(s));
      } else if s.worker.Busy? {
        desk.Progress(Discard, s.(worker := Worker.Idle));
      }
      Latch();
    }

    /** The worker takes the next job. */
    method Work(cancel: CancelCheck, acts: seq<Act>) returns (consistent: bool)
      requires InStep() && desk.system.v.isPaged && worker != null && desk.taken < |desk.viewer.sent|
      modifies desk, desk.viewer, Reach()
      ensures consistent ==> InStep()
      ensures worker == old(worker) && fresh(Reach() - old(Reach()))
    {
      hide Reachable, CsvData, W.SourceWorker.Valid;
      var job := desk.viewer.sent[desk.taken];
      ghost var s := desk.system;
      if Stale(desk.viewer.State(), job) {
        desk.Take(DropStale, s.(jobs := s.jobs[1..]));
        return true;
      }
      RunnableJob(s);
      match job {
        case OpenJob(_, _) => consistent := OpenFile(job, cancel, acts);
        case PageJob(_, _, _, _) => consistent := ServePage(job, cancel, acts);
        case SortJob(_, _, _) => assert false;
      }
    }

    /** One turn; false means that the counters have moved in a way the acts do not explain. */
    method Turn(turn: Turn) returns (consistent: bool)
      requires InStep() && Sound(turn)
      modifies this, desk, desk.viewer, Reach()
      ensures consistent ==> InStep()
      ensures fresh(Reach() - old(Reach()))
    {
      hide Reachable, CsvData, W.SourceWorker.Valid, Attached;
      consistent := true;
      match turn {
        case Loading(bytes, delimiter) => Load(bytes, delimiter);
        case Acting(acts) => Act(acts);
        case Working(cancel, acts) =>
          if desk.viewer.isPaged && desk.taken < |desk.viewer.sent| {
            consistent := Work(cancel, acts);
          } else {
            Act(acts);
          }
        case Indexing(cancel, stat, io, acts, more) =>
          if desk.viewer.isPaged && worker.slices != [] {
            consistent := RunSlice(cancel, stat, io, acts, more);
          } else {
            Act(acts + more);
          }
      }
    }

    // ---- What the user sees ----------------------------------------------------------------

    /** At most one index slice is queued, and whatever is on display belongs to the file the worker has
        open. */
    ghost predicate Agrees()
      reads this, desk, desk.viewer, Reach()
    {
      var v := desk.viewer;
      && (v.isPaged ==> worker != null && |worker.slices| <= 1)
      && (v.isPaged && v.pages.shown.Some? ==>
            && worker.source != null && worker.source.file == bytes && worker.source.delimiter == delimiter
            && ShowsRecords(v.pages, worker.source.Total(), worker.source.Latched())
            && ShowsCells(v.pages, bytes, delimiter))
    }

    /** Every row on display shows the cells of its record: whole, or cut to the cap of the page size and
        flagged. */
    static ghost predicate ShowsCells(p: Pages, file: seq<Byte>, delimiter: Byte)
      requires p.shown.Some?
    {
      var texts, lo, size := p.shown.value.texts, (p.pager.page - 1) * p.pager.pageSize, p.pager.pageSize;
      && lo >= 0 && |texts| == |p.shown.value.rows|
      && forall i | 0 <= i < |texts| :: Csv.Displays(file, delimiter, lo + i, size, texts[i].cells, texts[i].clamped)
    }

    /** The rows on display are the data records [(page - 1) * size, page * size) as far as there are
        `n`; only a latched failure may have cut them short.  Labels, token, total and the next button
        agree with them. */
    static ghost predicate ShowsRecords(p: Pages, n: nat, latched: bool)
      requires p.shown.Some?
    {
      var rows, lo, size := p.shown.value.rows, (p.pager.page - 1) * p.pager.pageSize, p.pager.pageSize;
      && p.pager.page >= 1 && size > 0 && |rows| <= Min(size, n - lo)
      && (forall i | 0 <= i < |rows| :: rows[i].rowid == lo + i)
      && (!latched ==> |rows| == Min(size, n - lo))
      && p.shown.value.rowOffset == (if rows == [] then 0 else lo) && p.token.offset == lo
      && p.token.valid == (rows != [])
      && (p.pager.total.Some? ==> p.pager.total.value == n)
      && (p.pager.page * size < n ==> p.pager.CanNext())
    }

    lemma InStepAgrees()
      requires InStep()
      ensures Agrees()
    {
      hide Reachable, CsvData, W.SourceWorker.Valid, Csv.CsvFileSource.IsOpen;
      var s := desk.system;
      if s.v.isPaged && s.v.pages.shown.Some? {
        DisplayAgrees(s);
        NextEnabled(s);
        TotalIsCounted();
        CellsFit(s);
      }
    }

    lemma CellsFit(s: System)
      requires s.v.pages.shown.Some? && s.v.isCsv && s.data == CsvData(bytes, delimiter)
      requires s.v.pages.pager.pageSize >= 0
      requires var p := s.v.pages;
        ShowsPage(s.data, true, s.latched, s.v.sorts.committed, p.pager.page, p.pager.pageSize, p.token, p.shown.value)
      ensures ShowsCells(s.v.pages, bytes, delimiter)
    {
      hide Csv.Displays;
      var texts, lo, size := s.v.pages.shown.value.texts, (s.v.pages.pager.page - 1) * s.v.pages.pager.pageSize,
        s.v.pages.pager.pageSize;
      forall i | 0 <= i < |texts|
        ensures Csv.Displays(bytes, delimiter, lo + i, size, texts[i].cells, texts[i].clamped)
      {
        assert s.data.fits(lo + i, size, texts[i]);
      }
    }

    lemma WorkerHasSource()
      requires worker != null && worker.Valid() && worker.source != null
      ensures worker.source.Valid() && (worker.openView.Some? ==> worker.source.IsOpen())
    {
    }

    lemma KnownTotalIsExact()
      requires worker != null && worker.source != null && worker.source.Valid() && worker.source.knownTotal.Some?
      requires worker.source.index.completeFlag && !worker.source.index.failed
      requires worker.source.file == bytes && worker.source.delimiter == delimiter
      ensures worker.source.knownTotal.value == |CsvData(bytes, delimiter).table|
    {
    }
  }

  /** However long the user browses, while files are opened, indexed, changed and given up on: after
      every turn the display shows exactly the records of its page, unless indexing has latched a
      failure. */
  method Browse(turns: seq<Turn>) returns (session: CsvSession, consistent: bool)
    requires forall i | 0 <= i < |turns| :: Sound(turns[i])
    ensures consistent ==> session.InStep() && session.Agrees()
  {
    hide CsvSession.InStep, CsvSession.Agrees;
    session := new CsvSession();
    consistent := true;
    for i := 0 to |turns|
      invariant fresh(session) && fresh(session.desk) && fresh(session.desk.viewer) && fresh(session.Reach())
      invariant session.InStep()
    {
      consistent := session.Turn(turns[i]);
      if !consistent {
        return;
      }
    }
    session.InStepAgrees();
  }
}
