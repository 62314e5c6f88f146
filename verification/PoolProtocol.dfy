/**
 * The fork/join pool as a transition system: one main thread, any number of workers, and per
 * worker a mutex, the condition variables ready_cond and done_cond, and three flags.
 *
 * Acquiring a mutex, the flag accesses made together under it, a signal with the unlock that
 * follows it, and each work item are steps of their own. Waiting on a condition variable releases
 * the mutex and enters its wait set in one step; a signal moves a waiter out; a waiter may also
 * leave without a signal.
 */
module PoolProtocol {
  import opened Options
  import Split

  const STAGING_INITIAL_CAPACITY: nat := 1024

  /** A staged function with its argument, or one index given to an iteration function with its argument. */
  datatype Task = Entry(callback: nat) | Visit(callback: nat, index: nat)

  datatype Owner = Nobody | ByMain | ByWorker

  datatype WorkerPc =
    | NotStarted
    | AtLock              // top of the worker loop
    | AtCheck             // holds the mutex, tests ready_flag and should_stop
    | Asleep              // in the wait set of ready_cond
    | Woken               // has left it, needs the mutex again
    | AtTake              // holds the mutex, about to take the work record
    | Running(record: nat, ran: nat)   // runs the tasks of a work record, `ran` of them finished
    | AtDoneLock
    | AtSetDone           // holds the mutex
    | AtSignalDone        // holds the mutex
    | Exited

  /** `work` points to one of main's work records, or nowhere. */
  datatype Worker = Worker(pc: WorkerPc, owner: Owner, ready: bool, done: bool, stop: bool, work: Option<nat>)

  /**
   * Inline: main runs everything. Staged: all records are written first.
   * For: record i is written just before its dispatch.
   */
  datatype Mode = Inline | Staged | For

  /** The slices of one call: one per worker, main's own last. */
  datatype Call = Call(mode: Mode, jobs: seq<seq<Task>>)

  datatype MainPc =
    | Idle
    | Spawn(i: nat)
    | StopLock(i: nat, upTo: nat, final: bool)
    | StopSet(i: nat, upTo: nat, final: bool)
    | StopSignal(i: nat, upTo: nat, final: bool)
    | Join(i: nat, upTo: nat, final: bool)
    | Allocate
    | Write(i: nat)
    | Test(i: nat)
    | Lock(i: nat)
    | SetReady(i: nat)
    | SignalReady(i: nat)
    | RunOwn(ran: nat)
    | WaitTest(i: nat)
    | WaitLock(i: nat)
    | WaitCheck(i: nat)
    | Waiting(i: nat)
    | WaitWoken(i: nat)
    | Finish
    | Destroyed

  datatype Pool = Pool(
    workers: seq<Worker>,
    main: MainPc,
    spawned: bool,
    cells: seq<Option<seq<Task>>>,   // work record and entries of each worker; None when not written or freed
    call: Call,
    result: bool,                    // what the last finished call returned
    buffer: nat,                     // how many entries dispatch_tasks has room for
    named: seq<Option<nat>>,         // tls_worker of each thread: the executor it names, if any
    slots: seq<seq<Task>>,           // updates made to the private slots of each executor, in order
    history: seq<seq<Task>>,         // tasks each executor has run, in order; main is the last executor
    committed: seq<seq<Task>>)        // slices of all successful calls so far, per executor
  {
    function Threads(): nat { |workers| }

    function Job(e: nat): seq<Task> {
      if e < |call.jobs| then call.jobs[e] else []
    }

    function AtMain(pc: MainPc): Pool { this.(main := pc) }

    function AtWorker(i: nat, w: Worker): Pool
      requires i < |workers|
    {
      this.(workers := workers[i := w])
    }

    predicate Formed() {
      && |cells| == |workers|
      && |named| == |slots| == |history| == |committed| == |workers| + 1
      && |call.jobs| == |workers| + 1
    }
  }

  // ----- worker steps

  predicate WorkerEnabled(s: Pool, i: nat) {
    && s.Formed() && i < |s.workers|
    && var w := s.workers[i];
       match w.pc
       case AtLock => w.owner.Nobody?
       case Woken => w.owner.Nobody?
       case AtDoneLock => w.owner.Nobody?
       case AtTake => w.work.Some?
       case Running(record, _) => record < |s.cells| && s.cells[record].Some?
       case NotStarted => false
       case Asleep => false
       case Exited => false
       case _ => true
  }

  /** The worker's own record after its step. */
  function WorkerTurn(w: Worker, taskLeft: bool): Worker {
    match w.pc
    case AtLock => w.(pc := AtCheck, owner := ByWorker)
    case Woken => w.(pc := AtCheck, owner := ByWorker)
    case AtCheck =>
      if w.stop then w.(pc := Exited, owner := Nobody)
      else if w.ready then w.(pc := AtTake)
      else w.(pc := Asleep, owner := Nobody)
    case AtTake =>
      if w.work.Some? then w.(pc := Running(w.work.value, 0), owner := Nobody, ready := false, work := None) else w
    case Running(record, ran) => if taskLeft then w.(pc := Running(record, ran + 1)) else w.(pc := AtDoneLock)
    case AtDoneLock => w.(pc := AtSetDone, owner := ByWorker)
    case AtSetDone => w.(pc := AtSignalDone, done := true)
    case AtSignalDone => w.(pc := AtLock, owner := Nobody)
    case _ => w
  }

  /** What the worker runs next, read from the shared record. */
  function NextTask(s: Pool, i: nat): Option<Task>
    requires s.Formed() && i < |s.workers|
  {
    match s.workers[i].pc
    case Running(record, ran) =>
      if record < |s.cells| && s.cells[record].Some? && ran < |s.cells[record].value|
      then Some(s.cells[record].value[ran]) else None
    case _ => None
  }

  /** A task updates the slots of the executor that its thread names, if it names one. */
  function Updated(slots: seq<seq<Task>>, who: Option<nat>, task: Option<Task>): (r: seq<seq<Task>>)
    ensures |r| == |slots|
  {
    if task.Some? && who.Some? && who.value < |slots|
    then slots[who.value := slots[who.value] + [task.value]] else slots
  }

  /** tls_worker is set after the record is taken and cleared after the last task. */
  function WorkerNames(s: Pool, i: nat): seq<Option<nat>>
    requires s.Formed() && i < |s.workers|
  {
    if s.workers[i].pc.AtTake? then s.named[i := Some(i)]
    else if s.workers[i].pc.Running? && NextTask(s, i).None? then s.named[i := None]
    else s.named
  }

  function WorkerStep(s: Pool, i: nat): Pool
    requires WorkerEnabled(s, i)
  {
    var task := NextTask(s, i);
    s.AtWorker(i, WorkerTurn(s.workers[i], task.Some?))
    .(history := if task.Some? then s.history[i := s.history[i] + [task.value]] else s.history,
      slots := Updated(s.slots, s.named[i], task),
      named := WorkerNames(s, i),
      main := if s.workers[i].pc.AtSignalDone? && s.main == Waiting(i) then WaitWoken(i) else s.main)
  }

  // ----- main steps

  function Wake(w: Worker): Worker {
    if w.pc.Asleep? then w.(pc := Woken, owner := Nobody) else w.(owner := Nobody)
  }

  predicate MainEnabled(s: Pool) {
    && s.Formed()
    && match s.main
       case Idle => false
       case Destroyed => false
       case Waiting(_) => false
       case Spawn(i) => i <= |s.workers|
       case StopLock(i, n, _) => i < |s.workers| && s.workers[i].owner.Nobody?
       case StopSet(i, _, _) => i < |s.workers|
       case StopSignal(i, _, _) => i < |s.workers|
       case Join(i, _, _) => i < |s.workers| && s.workers[i].pc.Exited?
       case Write(i) => i < |s.workers|
       case Test(i) => i <= |s.workers|
       case Lock(i) => i < |s.workers| && s.workers[i].owner.Nobody?
       case SetReady(i) => i < |s.workers|
       case SignalReady(i) => i < |s.workers|
       case WaitTest(i) => i <= |s.workers|
       case WaitLock(i) => i < |s.workers| && s.workers[i].owner.Nobody?
       case WaitWoken(i) => i < |s.workers| && s.workers[i].owner.Nobody?
       case WaitCheck(i) => i < |s.workers|
       case _ => true
  }

  /** A parallel for allocates its records each time, dispatch only a larger buffer. */
  predicate NeedsMemory(s: Pool) {
    s.call.mode.For? || s.buffer < |Split.Flatten(s.call.jobs)|
  }

  /** Where main goes, given whether an outside request (thread creation, allocation) succeeds. */
  function MainTurn(s: Pool, ok: bool): MainPc
    requires MainEnabled(s)
  {
    var n := s.Threads();
    match s.main
    case Spawn(i) =>
      if i == n then Allocate
      else if ok then Spawn(i + 1)
      else if i == 0 then Idle else StopLock(0, i, false)
    case StopLock(i, upTo, final) => StopSet(i, upTo, final)
    case StopSet(i, upTo, final) => StopSignal(i, upTo, final)
    case StopSignal(i, upTo, final) =>
      if i + 1 < upTo then StopLock(i + 1, upTo, final) else Join(0, upTo, final)
    case Join(i, upTo, final) =>
      if i + 1 < upTo then Join(i + 1, upTo, final) else if final then Destroyed else Idle
    case Allocate => if ok || !NeedsMemory(s) then Write(0) else Idle
    case Write(i) => if s.call.mode.For? then Lock(i) else if i + 1 < n then Write(i + 1) else Test(0)
    case Test(i) => if i == n then RunOwn(0) else if s.Job(i) == [] then Test(i + 1) else Lock(i)
    case Lock(i) => SetReady(i)
    case SetReady(i) => SignalReady(i)
    case SignalReady(i) =>
      if s.call.mode.For? then (if i + 1 < n then Write(i + 1) else RunOwn(0)) else Test(i + 1)
    case RunOwn(ran) => if ran < |s.Job(n)| then RunOwn(ran + 1) else WaitTest(0)
    case WaitTest(i) => if i == n then Finish else if s.Job(i) == [] then WaitTest(i + 1) else WaitLock(i)
    case WaitLock(i) => WaitCheck(i)
    case WaitWoken(i) => WaitCheck(i)
    case WaitCheck(i) => if s.workers[i].done then WaitTest(i + 1) else Waiting(i)
    case Finish => Idle
    case _ => s.main
  }

  /** What main does to the record of the worker it is dealing with. */
  function MainTouch(s: Pool, ok: bool, i: nat): Worker
    requires MainEnabled(s) && i < |s.workers|
  {
    var w := s.workers[i];
    match s.main
    case Spawn(j) => if ok && i == j then w.(pc := AtLock) else w
    case StopLock(j, _, _) => if i == j then w.(owner := ByMain) else w
    case StopSet(j, _, _) => if i == j then w.(stop := true) else w
    case StopSignal(j, _, _) => if i == j then Wake(w) else w
    case Lock(j) => if i == j then w.(owner := ByMain) else w
    case SetReady(j) => if i == j then w.(work := Some(j), done := false, ready := true) else w
    case SignalReady(j) => if i == j then Wake(w) else w
    case WaitLock(j) => if i == j then w.(owner := ByMain) else w
    case WaitWoken(j) => if i == j then w.(owner := ByMain) else w
    case WaitCheck(j) => if i == j then w.(owner := Nobody) else w
    case _ => w
  }

  function NoCells(n: nat): seq<Option<seq<Task>>> {
    seq(n, i => None)
  }

  function MainCells(s: Pool, ok: bool): seq<Option<seq<Task>>>
    requires MainEnabled(s)
  {
    match s.main
    case Allocate => if ok && NeedsMemory(s) then NoCells(s.Threads()) else s.cells
    case Write(i) => s.cells[i := Some(s.Job(i))]
    case Finish => if s.call.mode.For? then NoCells(s.Threads()) else s.cells
    case _ => s.cells
  }

  /** The next task of main's own slice. */
  function OwnTask(s: Pool): Option<Task> {
    if s.main.RunOwn? && s.main.ran < |s.Job(s.Threads())| then Some(s.Job(s.Threads())[s.main.ran]) else None
  }

  /** Main names itself, the last executor, around a slice of its own that is not empty. */
  function MainNames(s: Pool, next: MainPc): seq<Option<nat>>
    requires s.Formed()
  {
    var n := s.Threads();
    if s.main.RunOwn? then (if OwnTask(s).None? then s.named[n := None] else s.named)
    else if next.RunOwn? && s.Job(n) != [] then s.named[n := Some(n)]
    else s.named
  }

  function MainStep(s: Pool, ok: bool): Pool
    requires MainEnabled(s)
  {
    var n := s.Threads();
    var task := OwnTask(s);
    s.(workers := seq(n, i requires 0 <= i < n => MainTouch(s, ok, i)),
       main := MainTurn(s, ok),
       cells := MainCells(s, ok),
       spawned := s.spawned || s.main == Spawn(n),
       result := if MainTurn(s, ok).Idle? then s.main.Finish? else s.result,
       buffer := if s.main.Allocate? && s.call.mode.Staged? && MainTurn(s, ok).Write?
                 then Split.Grown(s.buffer, |Split.Flatten(s.call.jobs)|) else s.buffer,
       named := MainNames(s, MainTurn(s, ok)),
       slots := Updated(s.slots, s.named[n], task),
       history := if task.Some? then s.history[n := s.history[n] + [task.value]] else s.history,
       committed := if s.main.Finish?
                   then seq(n + 1, e requires 0 <= e < n + 1 => s.committed[e] + s.Job(e)) else s.committed)
  }

  // ----- moves

  datatype Move =
    | Begin(call: Call)
    | Shutdown
    | Main(ok: bool)
    | Work(i: nat)
    | SpuriousWorker(i: nat)
    | SpuriousMain

  predicate ValidCall(s: Pool, c: Call) {
    && |c.jobs| == |s.workers| + 1
    && (c.mode.Inline? ==> forall i :: 0 <= i < |s.workers| ==> c.jobs[i] == [])
    && (c.mode.For? ==> forall i :: 0 <= i < |s.workers| ==> c.jobs[i] != [])
    && (!c.mode.Inline? ==> |s.workers| >= 1)
  }

  predicate Enabled(s: Pool, m: Move) {
    && s.Formed()
    && match m
       case Begin(c) => s.main.Idle? && ValidCall(s, c)
       case Shutdown => s.main.Idle?
       case Main(_) => MainEnabled(s)
       case Work(i) => WorkerEnabled(s, i)
       case SpuriousWorker(i) => i < |s.workers| && s.workers[i].pc.Asleep?
       case SpuriousMain => s.main.Waiting?
  }

  function Step(s: Pool, m: Move): Pool
    requires Enabled(s, m)
  {
    match m
    case Begin(c) =>
      var next := if c.mode.Inline? then RunOwn(0) else if s.spawned then Allocate else Spawn(0);
      s.(call := c, main := next, named := MainNames(s.(call := c), next))
    case Shutdown =>
      s.AtMain(if s.spawned && |s.workers| > 0 then StopLock(0, |s.workers|, true) else Destroyed)
    case Main(ok) => MainStep(s, ok)
    case Work(i) => WorkerStep(s, i)
    case SpuriousWorker(i) => s.AtWorker(i, s.workers[i].(pc := Woken))
    case SpuriousMain => s.AtMain(WaitWoken(s.main.i))
  }

  /** The pool that create leaves behind. */
  ghost predicate Initial(s: Pool) {
    && s.Formed() && s.main.Idle? && !s.spawned && s.buffer == STAGING_INITIAL_CAPACITY
    && (forall i :: 0 <= i < |s.workers| ==> s.workers[i] == Worker(NotStarted, Nobody, false, false, false, None))
    && (forall e :: 0 <= e < |s.history| ==> s.history[e] == s.slots[e] == s.committed[e] == [] && s.named[e].None?)
  }

  ghost predicate Next(s: Pool, s': Pool) {
    exists m: Move :: Enabled(s, m) && s' == Step(s, m)
  }

  ghost predicate StepsAt(trace: seq<Pool>, i: nat)
    requires i + 1 < |trace|
  {
    Next(trace[i], trace[i + 1])
  }

  ghost predicate Run(trace: seq<Pool>) {
    |trace| >= 1 && forall i: nat :: i + 1 < |trace| ==> StepsAt(trace, i)
  }

  ghost predicate FullRun(trace: seq<Pool>) {
    Run(trace) && Initial(trace[0])
  }
}
