/** The inductive invariant of the pool, stated worker by worker through what one worker and main share. */
module PoolInvariant {
  import opened Options
  import opened PoolProtocol
  import Split

  // ----- where main stands with respect to worker i

  /** Main holds worker i's mutex. */
  predicate Holds(main: MainPc, i: nat) {
    match main
    case StopSet(j, _, _) => i == j
    case StopSignal(j, _, _) => i == j
    case SetReady(j) => i == j
    case SignalReady(j) => i == j
    case WaitCheck(j) => i == j
    case _ => false
  }

  /** Main has changed a flag of worker i and is about to signal ready_cond. */
  predicate Signalling(main: MainPc, i: nat) {
    main == SignalReady(i) || (main.StopSignal? && main.i == i)
  }

  /** Main has set worker i's ready flag in the current call. */
  predicate Dispatched(main: MainPc, mode: Mode, i: nat) {
    match main
    case Write(j) => mode.For? && i < j
    case Test(j) => i < j
    case Lock(j) => i < j
    case SetReady(j) => i < j
    case SignalReady(j) => i <= j
    case RunOwn(_) => true
    case WaitTest(_) => true
    case WaitLock(_) => true
    case WaitCheck(_) => true
    case Waiting(_) => true
    case WaitWoken(_) => true
    case Finish => true
    case _ => false
  }

  /** Main has seen worker i's done flag in the current call, or had no reason to look. */
  predicate Awaited(main: MainPc, i: nat) {
    match main
    case WaitTest(j) => i < j
    case WaitLock(j) => i < j
    case WaitCheck(j) => i < j
    case Waiting(j) => i < j
    case WaitWoken(j) => i < j
    case Finish => true
    case _ => false
  }

  /** Main has written worker i's record in the current call and not freed it. */
  predicate Written(main: MainPc, mode: Mode, i: nat) {
    match main
    case Write(j) => i < j
    case Test(_) => true
    case Lock(j) => mode.Staged? || i <= j
    case SetReady(j) => mode.Staged? || i <= j
    case SignalReady(j) => mode.Staged? || i <= j
    case _ => Dispatched(main, mode, i)
  }

  /** Worker i's thread exists, or has exited after existing. */
  predicate Started(main: MainPc, spawned: bool, i: nat) {
    match main
    case Spawn(j) => i < j
    case StopLock(_, upTo, _) => i < upTo
    case StopSet(_, upTo, _) => i < upTo
    case StopSignal(_, upTo, _) => i < upTo
    case Join(_, upTo, _) => i < upTo
    case _ => spawned
  }

  /** Worker i's stop flag must be up. */
  predicate MustStop(main: MainPc, i: nat) {
    match main
    case StopLock(j, _, _) => i < j
    case StopSet(j, _, _) => i < j
    case StopSignal(j, _, _) => i <= j
    case Join(_, upTo, _) => i < upTo
    case _ => false
  }

  predicate Joined(main: MainPc, i: nat) {
    main.Join? && i < main.i
  }

  // ----- one worker as main sees it

  datatype View = View(
    index: nat, worker: Worker, cell: Option<seq<Task>>, history: seq<Task>, committed: seq<Task>, job: seq<Task>,
    holds: bool, signalling: bool, dispatched: bool, awaited: bool, written: bool,
    started: bool, mustStop: bool, joined: bool, waitingHere: bool)

  function ViewOf(s: Pool, i: nat): View
    requires s.Formed() && i < |s.workers|
  {
    View(i, s.workers[i], s.cells[i], s.history[i], s.committed[i], s.call.jobs[i],
         Holds(s.main, i), Signalling(s.main, i),
         !s.call.mode.Inline? && Dispatched(s.main, s.call.mode, i), Awaited(s.main, i),
         !s.call.mode.Inline? && Written(s.main, s.call.mode, i),
         Started(s.main, s.spawned, i), MustStop(s.main, i), Joined(s.main, i), s.main == Waiting(i))
  }

  predicate HoldsMutex(pc: WorkerPc) {
    pc.AtCheck? || pc.AtTake? || pc.AtSetDone? || pc.AtSignalDone?
  }

  /** Between two jobs. */
  predicate Resting(pc: WorkerPc) {
    pc.NotStarted? || pc.AtLock? || pc.AtCheck? || pc.Asleep? || pc.Woken? || pc.Exited?
  }

  /** A non-empty slice has been handed over and not collected. */
  predicate Active(v: View) {
    v.job != [] && v.dispatched && !v.awaited
  }

  predicate Pending(v: View) {
    v.worker.ready && !v.worker.done && (Resting(v.worker.pc) || v.worker.pc.AtTake?) && v.history == v.committed
  }

  predicate InJob(v: View) {
    && !v.worker.ready && !v.worker.done
    && match v.worker.pc
       case Running(_, ran) => ran <= |v.job| && v.history == v.committed + v.job[..ran]
       case AtDoneLock => v.history == v.committed + v.job
       case AtSetDone => v.history == v.committed + v.job
       case _ => false
  }

  predicate Finished(v: View) {
    && !v.worker.ready && v.worker.done
    && (Resting(v.worker.pc) || v.worker.pc.AtSignalDone?)
    && v.history == v.committed + v.job
  }

  predicate WorkerOk(v: View) {
    // the mutex
    && (v.worker.owner.ByWorker? <==> HoldsMutex(v.worker.pc))
    && (v.worker.owner.ByMain? <==> v.holds)
    // the job
    && (v.written ==> v.cell == Some(v.job))
    && v.worker.work == (if v.worker.ready then Some(v.index) else None)
    && (v.worker.pc.Running? ==> v.worker.pc.record == v.index)
    && (Active(v) ==> v.written && v.started && (Pending(v) || InJob(v) || Finished(v)))
    && (!Active(v) ==> !v.worker.ready && Resting(v.worker.pc)
                       && v.history == v.committed + (if v.awaited then v.job else []))
    && (v.worker.pc.AtTake? ==> v.worker.ready && !v.worker.stop)
    // no wakeup is lost
    && (v.worker.pc.Asleep? && (v.worker.ready || v.worker.stop) ==> v.signalling)
    && (v.waitingHere && v.worker.done ==> v.worker.pc.AtSignalDone?)
    && (v.waitingHere ==> Active(v))
    // threads and stop flags
    && (v.started ==> !v.worker.pc.NotStarted?)
    && (!v.started ==> v.worker.pc.NotStarted? || v.worker.pc.Exited?)
    && (v.worker.pc.Exited? ==> v.worker.stop)
    && (v.mustStop ==> v.worker.stop)
    && (v.joined ==> v.worker.pc.Exited?)
    && (v.awaited ==> v.dispatched || v.job == [])
  }

  /** Main is inside a call, not stopping threads. */
  predicate InCall(main: MainPc) {
    !main.Idle? && !main.Destroyed? && !Stopping(main)
  }

  predicate Stopping(main: MainPc) {
    main.StopLock? || main.StopSet? || main.StopSignal? || main.Join?
  }

  /** Main's own slice, and the bounds of its indices. */
  predicate MainOk(s: Pool)
    requires s.Formed()
  {
    var n := |s.workers|;
    && (InCall(s.main) ==> ValidCall(s, s.call))
    && (match s.main
        case Idle => s.history[n] == s.committed[n]
        case Destroyed => s.history[n] == s.committed[n]
        case Spawn(i) => i <= n && !s.spawned && !s.call.mode.Inline? && s.history[n] == s.committed[n]
        case StopLock(i, upTo, final) => i < upTo <= n && s.spawned == final && (final ==> upTo == n)
            && s.history[n] == s.committed[n]
        case StopSet(i, upTo, final) => i < upTo <= n && s.spawned == final && (final ==> upTo == n)
            && s.history[n] == s.committed[n]
        case StopSignal(i, upTo, final) => i < upTo <= n && s.spawned == final && (final ==> upTo == n)
            && s.history[n] == s.committed[n]
        case Join(i, upTo, final) => i < upTo <= n && s.spawned == final && (final ==> upTo == n)
            && s.history[n] == s.committed[n]
        case Allocate => s.spawned && !s.call.mode.Inline? && s.history[n] == s.committed[n]
        case Write(i) => i < n && s.spawned && !s.call.mode.Inline? && s.history[n] == s.committed[n]
        case Test(i) => i <= n && s.spawned && s.call.mode.Staged? && s.history[n] == s.committed[n]
        case Lock(i) => i < n && s.spawned && !s.call.mode.Inline? && s.Job(i) != [] && s.history[n] == s.committed[n]
        case SetReady(i) => i < n && s.spawned && !s.call.mode.Inline? && s.Job(i) != []
            && s.history[n] == s.committed[n]
        case SignalReady(i) => i < n && s.spawned && !s.call.mode.Inline? && s.Job(i) != []
            && s.history[n] == s.committed[n]
        case RunOwn(ran) => ran <= |s.Job(n)| && (s.spawned || s.call.mode.Inline?)
            && s.history[n] == s.committed[n] + s.Job(n)[..ran]
        case WaitTest(i) => i <= n && (s.spawned || s.call.mode.Inline?) && s.history[n] == s.committed[n] + s.Job(n)
        case WaitLock(i) => i < n && s.spawned && !s.call.mode.Inline? && s.Job(i) != []
            && s.history[n] == s.committed[n] + s.Job(n)
        case WaitCheck(i) => i < n && s.spawned && !s.call.mode.Inline? && s.Job(i) != []
            && s.history[n] == s.committed[n] + s.Job(n)
        case Waiting(i) => i < n && s.spawned && !s.call.mode.Inline? && s.Job(i) != []
            && s.history[n] == s.committed[n] + s.Job(n)
        case WaitWoken(i) => i < n && s.spawned && !s.call.mode.Inline? && s.Job(i) != []
            && s.history[n] == s.committed[n] + s.Job(n)
        case Finish => (s.spawned || s.call.mode.Inline?) && s.history[n] == s.committed[n] + s.Job(n))
  }

  ghost predicate Inv(s: Pool) {
    && s.Formed()
    && MainOk(s)
    && forall i: nat :: i < |s.workers| ==> WorkerOk(ViewOf(s, i))
  }

  lemma InitialInv(s: Pool)
    requires Initial(s)
    ensures Inv(s)
  {
  }

  // ----- worker steps

  /** A worker's step shows to no other worker. */
  lemma WorkerStepFrame(s: Pool, i: nat, j: nat)
    requires s.Formed() && WorkerEnabled(s, i) && j < |s.workers| && j != i
    ensures ViewOf(WorkerStep(s, i), j) == ViewOf(s, j)
  {
  }

  /** What the worker's own step changes of its view. */
  lemma WorkerView(s: Pool, i: nat)
    requires WorkerEnabled(s, i)
    ensures var v, task := ViewOf(s, i), NextTask(s, i);
            ViewOf(WorkerStep(s, i), i)
            == v.(worker := WorkerTurn(v.worker, task.Some?),
                  history := if task.Some? then v.history + [task.value] else v.history,
                  waitingHere := v.waitingHere && !v.worker.pc.AtSignalDone?)
  {
  }

  lemma RunningStepOk(s: Pool, i: nat)
    requires s.Formed() && WorkerEnabled(s, i) && WorkerOk(ViewOf(s, i)) && s.workers[i].pc.Running?
    ensures WorkerOk(ViewOf(WorkerStep(s, i), i))
  {
    WorkerView(s, i);
    hide Holds, Signalling, Dispatched, Awaited, Written, Started, MustStop, Joined, WorkerStep;
    var v := ViewOf(s, i);
    if v.worker.pc.ran < |v.job| {
      assert v.job[..v.worker.pc.ran + 1] == v.job[..v.worker.pc.ran] + [v.job[v.worker.pc.ran]];
    } else {
      assert v.job[..v.worker.pc.ran] == v.job;
    }
  }

  lemma SyncStepOk(s: Pool, i: nat)
    requires s.Formed() && WorkerEnabled(s, i) && WorkerOk(ViewOf(s, i)) && !s.workers[i].pc.Running?
    ensures WorkerOk(ViewOf(WorkerStep(s, i), i))
  {
    WorkerView(s, i);
    hide Holds, Signalling, Dispatched, Awaited, Written, Started, MustStop, Joined, WorkerStep;
  }

  lemma WorkerStepOk(s: Pool, i: nat)
    requires s.Formed() && WorkerEnabled(s, i) && WorkerOk(ViewOf(s, i))
    ensures WorkerOk(ViewOf(WorkerStep(s, i), i))
  {
    hide WorkerOk, WorkerStep;
    if s.workers[i].pc.Running? {
      RunningStepOk(s, i);
    } else {
      SyncStepOk(s, i);
    }
  }

  lemma WorkerStepMainOk(s: Pool, i: nat)
    requires s.Formed() && WorkerEnabled(s, i) && MainOk(s)
    ensures s.Formed() && MainOk(WorkerStep(s, i))
  {
  }

  lemma WorkerStepInv(s: Pool, i: nat)
    requires Inv(s) && WorkerEnabled(s, i)
    ensures Inv(WorkerStep(s, i))
  {
    hide WorkerOk, MainOk;
    WorkerStepOk(s, i);
    WorkerStepMainOk(s, i);
    forall j: nat | j < |s.workers| ensures WorkerOk(ViewOf(WorkerStep(s, i), j)) {
      if j != i { WorkerStepFrame(s, i, j); }
    }
  }

  // ----- main steps, as worker j sees them

  lemma SpawnOk(s: Pool, ok: bool, j: nat)
    requires s.Formed() && MainEnabled(s) && MainOk(s) && j < |s.workers| && WorkerOk(ViewOf(s, j))
    requires s.main.Spawn?
    ensures WorkerOk(ViewOf(MainStep(s, ok), j))
  {
    hide MainNames, Updated, Split.Flatten, Split.Grown;
  }

  lemma StopOk(s: Pool, ok: bool, j: nat)
    requires s.Formed() && MainEnabled(s) && MainOk(s) && j < |s.workers| && WorkerOk(ViewOf(s, j))
    requires s.main.StopLock? || s.main.StopSet? || s.main.StopSignal?
    ensures WorkerOk(ViewOf(MainStep(s, ok), j))
  {
    hide MainNames, Updated, Split.Flatten, Split.Grown;
  }

  lemma JoinOk(s: Pool, ok: bool, j: nat)
    requires s.Formed() && MainEnabled(s) && MainOk(s) && j < |s.workers| && WorkerOk(ViewOf(s, j))
    requires s.main.Join?
    ensures WorkerOk(ViewOf(MainStep(s, ok), j))
  {
    hide MainNames, Updated, Split.Flatten, Split.Grown;
  }

  lemma PrepareOk(s: Pool, ok: bool, j: nat)
    requires s.Formed() && MainEnabled(s) && MainOk(s) && j < |s.workers| && WorkerOk(ViewOf(s, j))
    requires s.main.Allocate? || s.main.Write? || s.main.Test?
    ensures WorkerOk(ViewOf(MainStep(s, ok), j))
  {
    hide MainNames, Updated, Split.Flatten, Split.Grown;
  }

  lemma LockOk(s: Pool, ok: bool, j: nat)
    requires s.Formed() && MainEnabled(s) && MainOk(s) && j < |s.workers| && WorkerOk(ViewOf(s, j))
    requires s.main.Lock?
    ensures WorkerOk(ViewOf(MainStep(s, ok), j))
  {
    hide MainNames, Updated, Split.Flatten, Split.Grown;
  }

  lemma SetReadyOk(s: Pool, ok: bool, j: nat)
    requires s.Formed() && MainEnabled(s) && MainOk(s) && j < |s.workers| && WorkerOk(ViewOf(s, j))
    requires s.main.SetReady?
    ensures WorkerOk(ViewOf(MainStep(s, ok), j))
  {
    hide MainNames, Updated, Split.Flatten, Split.Grown;
  }

  lemma SignalReadyOk(s: Pool, ok: bool, j: nat)
    requires s.Formed() && MainEnabled(s) && MainOk(s) && j < |s.workers| && WorkerOk(ViewOf(s, j))
    requires s.main.SignalReady?
    ensures WorkerOk(ViewOf(MainStep(s, ok), j))
  {
    hide MainNames, Updated, Split.Flatten, Split.Grown;
  }

  lemma HandOverOk(s: Pool, ok: bool, j: nat)
    requires s.Formed() && MainEnabled(s) && MainOk(s) && j < |s.workers| && WorkerOk(ViewOf(s, j))
    requires s.main.Lock? || s.main.SetReady? || s.main.SignalReady?
    ensures WorkerOk(ViewOf(MainStep(s, ok), j))
  {
    hide WorkerOk, MainOk, MainStep;
    if s.main.Lock? {
      LockOk(s, ok, j);
    } else if s.main.SetReady? {
      SetReadyOk(s, ok, j);
    } else {
      SignalReadyOk(s, ok, j);
    }
  }

  lemma OwnSliceOk(s: Pool, ok: bool, j: nat)
    requires s.Formed() && MainEnabled(s) && MainOk(s) && j < |s.workers| && WorkerOk(ViewOf(s, j))
    requires s.main.RunOwn? || s.main.WaitTest?
    ensures WorkerOk(ViewOf(MainStep(s, ok), j))
  {
    hide MainNames, Updated, Split.Flatten, Split.Grown;
  }

  lemma WaitCheckOk(s: Pool, ok: bool, j: nat)
    requires s.Formed() && MainEnabled(s) && MainOk(s) && j < |s.workers| && WorkerOk(ViewOf(s, j))
    requires s.main.WaitCheck?
    ensures WorkerOk(ViewOf(MainStep(s, ok), j))
  {
    hide MainNames, Updated, Split.Flatten, Split.Grown;
  }

  lemma WaitLockOk(s: Pool, ok: bool, j: nat)
    requires s.Formed() && MainEnabled(s) && MainOk(s) && j < |s.workers| && WorkerOk(ViewOf(s, j))
    requires s.main.WaitLock? || s.main.WaitWoken?
    ensures WorkerOk(ViewOf(MainStep(s, ok), j))
  {
    hide MainNames, Updated, Split.Flatten, Split.Grown;
  }

  lemma WaitOk(s: Pool, ok: bool, j: nat)
    requires s.Formed() && MainEnabled(s) && MainOk(s) && j < |s.workers| && WorkerOk(ViewOf(s, j))
    requires s.main.WaitLock? || s.main.WaitCheck? || s.main.WaitWoken?
    ensures WorkerOk(ViewOf(MainStep(s, ok), j))
  {
    hide WorkerOk, MainOk, MainStep;
    if s.main.WaitCheck? {
      WaitCheckOk(s, ok, j);
    } else {
      WaitLockOk(s, ok, j);
    }
  }

  lemma FinishOk(s: Pool, ok: bool, j: nat)
    requires s.Formed() && MainEnabled(s) && MainOk(s) && j < |s.workers| && WorkerOk(ViewOf(s, j))
    requires s.main.Finish?
    ensures WorkerOk(ViewOf(MainStep(s, ok), j))
  {
    hide MainNames, Updated, Split.Flatten, Split.Grown;
  }

  /** What MainOk can see of a step of main. */
  lemma MainStepShape(s: Pool, ok: bool)
    requires s.Formed() && MainEnabled(s)
    ensures var s', n := MainStep(s, ok), |s.workers|;
            && s'.Formed() && |s'.workers| == n && s'.call == s.call && s'.main == MainTurn(s, ok)
            && s'.spawned == (s.spawned || s.main == Spawn(n))
            && s'.history[n] == s.history[n] + (if OwnTask(s).Some? then [OwnTask(s).value] else [])
            && s'.committed[n] == s.committed[n] + (if s.main.Finish? then s.Job(n) else [])
  {
  }

  lemma OwnSliceMainOk(s: Pool, ok: bool)
    requires s.Formed() && MainEnabled(s) && MainOk(s) && s.main.RunOwn?
    ensures MainStep(s, ok).Formed() && MainOk(MainStep(s, ok))
  {
    MainStepShape(s, ok);
    hide MainStep;
    var own := s.Job(|s.workers|);
    if s.main.ran < |own| {
      assert own[..s.main.ran + 1] == own[..s.main.ran] + [own[s.main.ran]];
    } else {
      assert own[..s.main.ran] == own;
    }
  }

  lemma StartMainOk(s: Pool, ok: bool)
    requires s.Formed() && MainEnabled(s) && MainOk(s)
    requires s.main.Spawn? || Stopping(s.main) || s.main.Allocate? || s.main.Write?
    ensures MainStep(s, ok).Formed() && MainOk(MainStep(s, ok))
  {
    MainStepShape(s, ok);
    hide MainStep;
  }

  lemma HandOverMainOk(s: Pool, ok: bool)
    requires s.Formed() && MainEnabled(s) && MainOk(s)
    requires s.main.Test? || s.main.Lock? || s.main.SetReady? || s.main.SignalReady?
    ensures MainStep(s, ok).Formed() && MainOk(MainStep(s, ok))
  {
    MainStepShape(s, ok);
    hide MainStep;
  }

  lemma CollectMainOk(s: Pool, ok: bool)
    requires s.Formed() && MainEnabled(s) && MainOk(s)
    requires s.main.WaitTest? || s.main.WaitLock? || s.main.WaitWoken? || s.main.WaitCheck? || s.main.Finish?
    ensures MainStep(s, ok).Formed() && MainOk(MainStep(s, ok))
  {
    MainStepShape(s, ok);
    hide MainStep;
  }

  lemma MainStepMainOk(s: Pool, ok: bool)
    requires s.Formed() && MainEnabled(s) && MainOk(s)
    ensures MainStep(s, ok).Formed() && MainOk(MainStep(s, ok))
  {
    hide MainOk, MainStep;
    if s.main.RunOwn? {
      OwnSliceMainOk(s, ok);
    } else if s.main.Spawn? || Stopping(s.main) || s.main.Allocate? || s.main.Write? {
      StartMainOk(s, ok);
    } else if s.main.Test? || s.main.Lock? || s.main.SetReady? || s.main.SignalReady? {
      HandOverMainOk(s, ok);
    } else {
      CollectMainOk(s, ok);
    }
  }

  lemma MainStepInv(s: Pool, ok: bool)
    requires Inv(s) && MainEnabled(s)
    ensures Inv(MainStep(s, ok))
  {
    hide WorkerOk, MainOk, MainStep;
    MainStepSize(s, ok);
    MainStepMainOk(s, ok);
    forall j: nat | j < |s.workers| ensures WorkerOk(ViewOf(MainStep(s, ok), j)) {
      if s.main.Spawn? {
        SpawnOk(s, ok, j);
      } else if s.main.Join? {
        JoinOk(s, ok, j);
      } else if Stopping(s.main) {
        StopOk(s, ok, j);
      } else if s.main.Allocate? || s.main.Write? || s.main.Test? {
        PrepareOk(s, ok, j);
      } else if s.main.Lock? || s.main.SetReady? || s.main.SignalReady? {
        HandOverOk(s, ok, j);
      } else if s.main.RunOwn? || s.main.WaitTest? {
        OwnSliceOk(s, ok, j);
      } else if s.main.Finish? {
        FinishOk(s, ok, j);
      } else {
        WaitOk(s, ok, j);
      }
    }
  }

  lemma MainStepSize(s: Pool, ok: bool)
    requires MainEnabled(s)
    ensures |MainStep(s, ok).workers| == |s.workers|
  {
  }

  // ----- requests and spurious wakeups

  lemma RequestInv(s: Pool, m: Move)
    requires Inv(s) && Enabled(s, m) && (m.Begin? || m.Shutdown?)
    ensures Inv(Step(s, m))
  {
    var s' := Step(s, m);
    forall j: nat | j < |s'.workers| ensures WorkerOk(ViewOf(s', j)) {
      assert WorkerOk(ViewOf(s, j));
    }
  }

  lemma SpuriousMainInv(s: Pool)
    requires Inv(s) && s.main.Waiting?
    ensures Inv(Step(s, SpuriousMain))
  {
    var s' := Step(s, SpuriousMain);
    forall j: nat | j < |s'.workers| ensures WorkerOk(ViewOf(s', j)) {
      assert WorkerOk(ViewOf(s, j));
    }
  }

  lemma SpuriousWorkerInv(s: Pool, i: nat)
    requires Inv(s) && Enabled(s, SpuriousWorker(i))
    ensures Inv(Step(s, SpuriousWorker(i)))
  {
    var s' := Step(s, SpuriousWorker(i));
    forall j: nat | j < |s'.workers| ensures WorkerOk(ViewOf(s', j)) {
      assert WorkerOk(ViewOf(s, j));
      if j != i { assert ViewOf(s', j) == ViewOf(s, j); }
    }
  }

  lemma StepInv(s: Pool, m: Move)
    requires Inv(s) && Enabled(s, m)
    ensures Inv(Step(s, m))
  {
    hide Inv;
    match m
    case Main(ok) => MainStepInv(s, ok);
    case Work(i) => WorkerStepInv(s, i);
    case Begin(_) => RequestInv(s, m);
    case Shutdown => RequestInv(s, m);
    case SpuriousWorker(i) => SpuriousWorkerInv(s, i);
    case SpuriousMain => SpuriousMainInv(s);
  }

  lemma NextInv(s: Pool, s': Pool)
    requires Inv(s) && Next(s, s')
    ensures Inv(s')
  {
    hide Inv;
    var m: Move :| Enabled(s, m) && s' == Step(s, m);
    StepInv(s, m);
  }

  /** The invariant holds throughout every run, whatever the interleaving and the wakeups. */
  lemma {:induction false} RunInv(trace: seq<Pool>, k: nat)
    requires FullRun(trace) && k < |trace|
    ensures Inv(trace[k])
  {
    if k == 0 {
      InitialInv(trace[0]);
    } else {
      RunInv(trace, k - 1);
      assert StepsAt(trace, k - 1);
      NextInv(trace[k - 1], trace[k]);
    }
  }
}
