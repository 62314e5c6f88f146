/** Calls, destroy and rollback come to an end: a step is always possible, and a measure falls with every step. */
module PoolLiveness {
  import opened Options
  import opened PoolProtocol
  import opened PoolInvariant
  import opened PoolTheorems
  import Split

  // ----- some step is always possible

  /** No worker that is owed a slice in this call has its stop flag up. */
  ghost predicate Healthy(s: Pool) {
    InCall(s.main) ==> forall i: nat :: i < |s.workers| && s.Job(i) != [] ==> !s.workers[i].stop
  }

  /** A worker that main is waiting for, or whose mutex main wants, can move unless main can. */
  lemma WantedMutexMoves(s: Pool, i: nat)
    requires Inv(s) && i < |s.workers| && !Holds(s.main, i) && !s.workers[i].owner.Nobody?
    ensures WorkerEnabled(s, i)
  {
    assert WorkerOk(ViewOf(s, i));
  }

  lemma AwaitedWorkerMoves(s: Pool, i: nat)
    requires Inv(s) && Healthy(s) && s.main == Waiting(i)
    ensures WorkerEnabled(s, i)
  {
    assert WorkerOk(ViewOf(s, i));
  }

  lemma StoppedWorkerMoves(s: Pool, i: nat)
    requires Inv(s) && s.main.Join? && s.main.i == i && !s.workers[i].pc.Exited?
    ensures WorkerEnabled(s, i)
  {
    assert WorkerOk(ViewOf(s, i));
  }

  /** A step that the protocol can always take when main is inside a call, a rollback or a destroy. */
  function DefaultMove(s: Pool): Move {
    if MainEnabled(s) then Main(true)
    else match s.main
         case Waiting(i) => Work(i)
         case Join(i, _, _) => Work(i)
         case StopLock(i, _, _) => Work(i)
         case Lock(i) => Work(i)
         case WaitLock(i) => Work(i)
         case WaitWoken(i) => Work(i)
         case _ => Main(true)
  }

  lemma DefaultWorker(s: Pool)
    requires Inv(s) && Healthy(s) && !s.main.Idle? && !s.main.Destroyed? && !MainEnabled(s)
    ensures DefaultMove(s).Work? && WorkerEnabled(s, DefaultMove(s).i)
  {
    match s.main
    case Waiting(i) => AwaitedWorkerMoves(s, i);
    case Join(i, _, _) => StoppedWorkerMoves(s, i);
    case StopLock(i, _, _) => WantedMutexMoves(s, i);
    case Lock(i) => WantedMutexMoves(s, i);
    case WaitLock(i) => WantedMutexMoves(s, i);
    case WaitWoken(i) => WantedMutexMoves(s, i);
  }

  lemma DefaultIsGranted(s: Pool)
    ensures DefaultMove(s) != Main(false) && InternalMove(DefaultMove(s))
  {
  }

  /** Freedom from deadlock, without help from spurious wakeups or new requests. */
  lemma SomeStepIsPossible(s: Pool) returns (m: Move)
    requires Inv(s) && Healthy(s) && !s.main.Idle? && !s.main.Destroyed?
    ensures Enabled(s, m) && (m.Main? || m.Work?)
  {
    m := DefaultMove(s);
    if !MainEnabled(s) {
      DefaultWorker(s);
    }
  }

  // ----- the measure

  function WorkerRank(w: Worker, job: nat): nat {
    (if w.ready then job + 16 else 0) +
    match w.pc
    case NotStarted => 0
    case AtLock => 3
    case AtCheck => 2
    case Asleep => 1
    case Woken => 3
    case AtTake => 1
    case Running(_, ran) => (if ran <= job then job - ran else 0) + 9
    case AtDoneLock => 8
    case AtSetDone => 7
    case AtSignalDone => 6
    case Exited => 0
  }

  function WorkersRank(s: Pool, n: nat): nat
    requires n <= |s.workers|
  {
    if n == 0 then 0 else WorkersRank(s, n - 1) + WorkerRank(s.workers[n - 1], JobSize(s.call, n - 1))
  }

  /** What handing over slices `i` and later can still cost. */
  function HandOver(n: nat, c: Call, i: nat): nat
    decreases n - i
  {
    if i < n then JobSize(c, i) + 26 + HandOver(n, c, i + 1) else 0
  }

  function JobSize(c: Call, e: nat): nat {
    if e < |c.jobs| then |c.jobs[e]| else 0
  }

  /** What waiting for workers `i` and later can still cost. */
  function Await(n: nat, i: nat): nat {
    (if i <= n then 8 * (n - i) else 0) + 3
  }

  function RunAll(n: nat, c: Call): nat {
    JobSize(c, n) + Await(n, 0) + 2
  }

  function StopRank(i: nat, upTo: nat): nat {
    (if i <= upTo then 8 * (upTo - i) else 0) + upTo + 6
  }

  function MainRank(n: nat, c: Call, main: MainPc): nat {
    var start := HandOver(n, c, 0) + RunAll(n, c) + n + 5;
    match main
    case Idle => 0
    case Destroyed => 0
    case Spawn(i) => (if i <= n then 4 * (n - i) else 0) + 9 * n + 12 + start
    case StopLock(i, upTo, _) => StopRank(i, upTo)
    case StopSet(i, upTo, _) => StopRank(i, upTo) - 1
    case StopSignal(i, upTo, _) => StopRank(i, upTo) - 2
    case Join(i, upTo, _) => (if i <= upTo then upTo - i else 0) + 1
    case Allocate => start
    case Write(i) =>
      if c.mode.For? then HandOver(n, c, i) + RunAll(n, c)
      else (if i <= n then n - i else 0) + HandOver(n, c, 0) + RunAll(n, c) + 2
    case Test(i) => HandOver(n, c, i) + RunAll(n, c)
    case Lock(i) => JobSize(c, i) + 25 + HandOver(n, c, i + 1) + RunAll(n, c)
    case SetReady(i) => JobSize(c, i) + 24 + HandOver(n, c, i + 1) + RunAll(n, c)
    case SignalReady(i) => 7 + HandOver(n, c, i + 1) + RunAll(n, c)
    case RunOwn(ran) => (if ran <= JobSize(c, n) then JobSize(c, n) - ran else 0) + Await(n, 0) + 1
    case WaitTest(i) => Await(n, i)
    case WaitLock(i) => Await(n, i) - 1
    case WaitWoken(i) => Await(n, i) - 1
    case WaitCheck(i) => Await(n, i) - 2
    case Waiting(i) => Await(n, i) - 3
    case Finish => 2
  }

  function Measure(s: Pool): nat {
    MainRank(|s.workers|, s.call, s.main) + WorkersRank(s, |s.workers|)
  }

  lemma {:induction false} SumChange(s: Pool, s': Pool, i: nat, n: nat)
    requires n <= |s.workers| == |s'.workers| && i < |s.workers| && s'.call == s.call
    requires forall j: nat :: j < |s.workers| && j != i ==> s'.workers[j] == s.workers[j]
    ensures i >= n ==> WorkersRank(s', n) == WorkersRank(s, n)
    ensures i < n ==> WorkersRank(s', n) + WorkerRank(s.workers[i], JobSize(s.call, i))
                      == WorkersRank(s, n) + WorkerRank(s'.workers[i], JobSize(s.call, i))
  {
    if n > 0 {
      SumChange(s, s', i, n - 1);
    }
  }

  lemma {:induction false} SumSame(s: Pool, s': Pool, n: nat)
    requires n <= |s.workers| == |s'.workers| && s'.call == s.call && s'.workers == s.workers
    ensures WorkersRank(s', n) == WorkersRank(s, n)
  {
    if n > 0 {
      SumSame(s, s', n - 1);
    }
  }

  /** The worker that main's step touches. */
  function Touched(main: MainPc): nat {
    match main
    case Spawn(i) => i
    case StopLock(i, _, _) => i
    case StopSet(i, _, _) => i
    case StopSignal(i, _, _) => i
    case Lock(i) => i
    case SetReady(i) => i
    case SignalReady(i) => i
    case WaitLock(i) => i
    case WaitWoken(i) => i
    case WaitCheck(i) => i
    case _ => 0
  }

  lemma MainTouchesOne(s: Pool, ok: bool)
    requires MainEnabled(s)
    ensures var s' := MainStep(s, ok);
            && |s'.workers| == |s.workers| && s'.call == s.call
            && (forall j: nat :: j < |s.workers| && j != Touched(s.main) ==> s'.workers[j] == s.workers[j])
            && (Touched(s.main) < |s.workers| ==>
                  s'.workers[Touched(s.main)] == MainTouch(s, ok, Touched(s.main)))
            && s'.main == MainTurn(s, ok)
  {
  }

  /** Rank of the worker that main touches, before and after, against main's own rank. */
  ghost predicate Pays(s: Pool, ok: bool)
    requires MainEnabled(s)
  {
    var n, i := |s.workers|, Touched(s.main);
    MainRank(n, s.call, MainTurn(s, ok)) + (if i < n then WorkerRank(MainTouch(s, ok, i), JobSize(s.call, i)) else 0)
    < MainRank(n, s.call, s.main) + (if i < n then WorkerRank(s.workers[i], JobSize(s.call, i)) else 0)
  }

  ghost predicate TouchedOk(s: Pool)
    requires s.Formed()
  {
    Touched(s.main) < |s.workers| ==> WorkerOk(ViewOf(s, Touched(s.main)))
  }

  lemma StartPays(s: Pool, ok: bool)
    requires s.Formed() && MainOk(s) && MainEnabled(s) && TouchedOk(s)
    requires s.main.Spawn? || s.main.Allocate?
    ensures Pays(s, ok)
  {
  }

  lemma StopPays(s: Pool, ok: bool)
    requires s.Formed() && MainOk(s) && MainEnabled(s) && TouchedOk(s)
    requires Stopping(s.main)
    ensures Pays(s, ok)
  {
  }

  lemma PreparePays(s: Pool, ok: bool)
    requires s.Formed() && MainOk(s) && MainEnabled(s) && TouchedOk(s)
    requires s.main.Write? || s.main.Test?
    ensures Pays(s, ok)
  {
  }

  lemma HandOverPays(s: Pool, ok: bool)
    requires s.Formed() && MainOk(s) && MainEnabled(s) && TouchedOk(s)
    requires s.main.Lock? || s.main.SetReady? || s.main.SignalReady?
    ensures Pays(s, ok)
  {
  }

  lemma CollectPays(s: Pool, ok: bool)
    requires s.Formed() && MainOk(s) && MainEnabled(s) && TouchedOk(s)
    requires s.main.RunOwn? || s.main.WaitTest? || s.main.Finish?
    ensures Pays(s, ok)
  {
  }

  lemma WaitPays(s: Pool, ok: bool)
    requires s.Formed() && MainOk(s) && MainEnabled(s) && TouchedOk(s)
    requires s.main.WaitLock? || s.main.WaitCheck? || s.main.WaitWoken?
    ensures Pays(s, ok)
  {
  }

  lemma MainRankPays(s: Pool, ok: bool)
    requires Inv(s) && MainEnabled(s)
    ensures Pays(s, ok)
  {
    hide WorkerOk, MainOk, Pays;
    if s.main.Spawn? || s.main.Allocate? {
      StartPays(s, ok);
    } else if Stopping(s.main) {
      StopPays(s, ok);
    } else if s.main.Write? || s.main.Test? {
      PreparePays(s, ok);
    } else if s.main.Lock? || s.main.SetReady? || s.main.SignalReady? {
      HandOverPays(s, ok);
    } else if s.main.RunOwn? || s.main.WaitTest? || s.main.Finish? {
      CollectPays(s, ok);
    } else {
      WaitPays(s, ok);
    }
  }

  lemma MainStepFalls(s: Pool, ok: bool)
    requires Inv(s) && MainEnabled(s)
    ensures Measure(MainStep(s, ok)) < Measure(s)
  {
    var s' := MainStep(s, ok);
    MainTouchesOne(s, ok);
    MainRankPays(s, ok);
    if Touched(s.main) < |s.workers| {
      SumChange(s, s', Touched(s.main), |s.workers|);
    } else {
      assert s'.workers == s.workers;
      SumSame(s, s', |s.workers|);
    }
  }

  /** A worker's step lowers its own rank by enough to pay for waking main. */
  lemma WorkerRankPays(s: Pool, i: nat)
    requires Inv(s) && WorkerEnabled(s, i)
    ensures var s' := WorkerStep(s, i);
            MainRank(|s.workers|, s.call, s'.main) + WorkerRank(s'.workers[i], JobSize(s.call, i))
            < MainRank(|s.workers|, s.call, s.main) + WorkerRank(s.workers[i], JobSize(s.call, i))
  {
    assert WorkerOk(ViewOf(s, i));
  }

  lemma WorkerStepFalls(s: Pool, i: nat)
    requires Inv(s) && WorkerEnabled(s, i)
    ensures Measure(WorkerStep(s, i)) < Measure(s)
  {
    WorkerRankPays(s, i);
    SumChange(s, WorkerStep(s, i), i, |s.workers|);
  }

  lemma DefaultIsPossible(s: Pool)
    requires Inv(s) && Healthy(s) && !s.main.Idle? && !s.main.Destroyed?
    ensures Enabled(s, DefaultMove(s)) && Measure(Step(s, DefaultMove(s))) < Measure(s)
  {
    if MainEnabled(s) {
      MainStepFalls(s, true);
    } else {
      DefaultWorker(s);
      WorkerStepFalls(s, DefaultMove(s).i);
    }
  }

  lemma SpuriousCostsTwo(s: Pool, m: Move)
    requires Inv(s) && Enabled(s, m) && (m.SpuriousWorker? || m.SpuriousMain?)
    ensures Measure(Step(s, m)) <= Measure(s) + 2
  {
    var s' := Step(s, m);
    if m.SpuriousWorker? {
      SumChange(s, s', m.i, |s.workers|);
    } else {
      SumSame(s, s', |s.workers|);
    }
  }

  function Spurious(moves: seq<Move>): nat {
    if moves == [] then 0
    else (if moves[0].SpuriousWorker? || moves[0].SpuriousMain? then 1 else 0) + Spurious(moves[1..])
  }

  /** Any number of steps that make no new request is bounded by the measure and the spurious wakeups among them. */
  lemma {:induction false} PathsAreBounded(s: Pool, moves: seq<Move>, s': Pool)
    requires Inv(s) && Internal(moves) && Path(s, moves, s')
    ensures |moves| + Measure(s') <= Measure(s) + 3 * Spurious(moves)
    decreases |moves|
  {
    hide Inv, Measure;
    if moves != [] {
      var t := Step(s, moves[0]);
      assert InternalMove(moves[0]) && Internal(moves[1..]);
      StepInv(s, moves[0]);
      match moves[0] {
        case Main(ok) => MainStepFalls(s, ok);
        case Work(i) => WorkerStepFalls(s, i);
        case SpuriousWorker(_) => SpuriousCostsTwo(s, moves[0]);
        case SpuriousMain => SpuriousCostsTwo(s, moves[0]);
      }
      PathsAreBounded(t, moves[1..], s');
    }
  }

  lemma HealthyStays(s: Pool, m: Move)
    requires Inv(s) && Healthy(s) && Enabled(s, m) && InternalMove(m)
    ensures Healthy(Step(s, m))
  {
    var s' := Step(s, m);
    if InCall(s'.main) && !m.SpuriousMain? && !m.SpuriousWorker? {
      forall i: nat | i < |s.workers| && s.Job(i) != [] ensures !s'.workers[i].stop {
        assert !s.workers[i].stop;
      }
    }
  }

  lemma {:induction false} HealthyPath(s: Pool, moves: seq<Move>, s': Pool)
    requires Inv(s) && Healthy(s) && Internal(moves) && Path(s, moves, s')
    ensures Inv(s') && Healthy(s')
    decreases |moves|
  {
    hide Inv, Healthy;
    if moves != [] {
      assert InternalMove(moves[0]) && Internal(moves[1..]);
      StepInv(s, moves[0]);
      HealthyStays(s, moves[0]);
      HealthyPath(Step(s, moves[0]), moves[1..], s');
    }
  }

  /** Nothing but a spurious wakeup or a new request can happen next. */
  ghost predicate Stalled(s: Pool) {
    forall m: Move :: Enabled(s, m) ==> !m.Main? && !m.Work?
  }

  /**
   * A healthy call, a rollback and a destroy all finish: every run is finite up to spurious
   * wakeups, and a run that cannot go on has brought main back.
   */
  lemma Finishes(s: Pool, moves: seq<Move>, s': Pool)
    requires Inv(s) && Healthy(s) && Internal(moves) && Path(s, moves, s')
    ensures |moves| <= Measure(s) + 3 * Spurious(moves)
    ensures Stalled(s') ==> s'.main.Idle? || s'.main.Destroyed?
  {
    PathsAreBounded(s, moves, s');
    HealthyPath(s, moves, s');
    if !s'.main.Idle? && !s'.main.Destroyed? {
      var m := SomeStepIsPossible(s');
      assert Enabled(s', m);
    }
  }

  // ----- stop flags left behind by a failed start

  /** Worker i is owed a slice in this call but its stop flag is up and it has not taken the slice. */
  ghost predicate Doomed(s: Pool, i: nat) {
    && Inv(s) && i < |s.workers| && s.workers[i].stop && s.Job(i) != []
    && !s.call.mode.Inline?
    && (s.main.Write? || s.main.Test? || s.main.Lock? || s.main.SetReady? || s.main.SignalReady?
        || Dispatched(s.main, s.call.mode, i))
    && !Awaited(s.main, i)
    && (Dispatched(s.main, s.call.mode, i) ==> s.workers[i].ready)
    && Resting(s.workers[i].pc)
  }

  lemma DoomedStays(s: Pool, i: nat, m: Move)
    requires Doomed(s, i) && Enabled(s, m)
    ensures Doomed(Step(s, m), i)
  {
    StepInv(s, m);
    hide Inv, Doomed;
    match m
    case Work(j) => DoomedWork(s, i, j);
    case Main(ok) => DoomedMain(s, i, ok);
    case SpuriousWorker(_) => DoomedWakes(s, i, m);
    case SpuriousMain => DoomedWakes(s, i, m);
    case Begin(_) => DoomedIsBusy(s, i);
    case Shutdown => DoomedIsBusy(s, i);
  }

  lemma DoomedIsBusy(s: Pool, i: nat)
    requires Doomed(s, i)
    ensures !s.main.Idle?
  {
  }

  lemma DoomedWork(s: Pool, i: nat, j: nat)
    requires Doomed(s, i) && WorkerEnabled(s, j) && Inv(WorkerStep(s, j))
    ensures Doomed(WorkerStep(s, j), i)
  {
    assert WorkerOk(ViewOf(s, i));
    assert WorkerOk(ViewOf(WorkerStep(s, j), i));
    if j != i { WorkerStepFrame(s, j, i); }
  }

  lemma DoomedWakes(s: Pool, i: nat, m: Move)
    requires Doomed(s, i) && Enabled(s, m) && (m.SpuriousWorker? || m.SpuriousMain?) && Inv(Step(s, m))
    ensures Doomed(Step(s, m), i)
  {
  }

  lemma DoomedMain(s: Pool, i: nat, ok: bool)
    requires Doomed(s, i) && MainEnabled(s) && Inv(MainStep(s, ok))
    ensures Doomed(MainStep(s, ok), i)
  {
    assert WorkerOk(ViewOf(s, i));
    assert WorkerOk(ViewOf(MainStep(s, ok), i));
    MainTouchesOne(s, ok);
  }

  /** From then on main never comes back, whatever is scheduled. */
  lemma {:induction false} DoomedForever(s: Pool, i: nat, moves: seq<Move>, s': Pool)
    requires Doomed(s, i) && Path(s, moves, s')
    ensures Doomed(s', i) && !s'.main.Idle?
    decreases |moves|
  {
    if moves != [] {
      DoomedStays(s, i, moves[0]);
      DoomedForever(Step(s, moves[0]), i, moves[1..], s');
    }
  }

  /** A start that fails after at least one thread was created leaves that worker's stop flag up. */
  lemma RollbackLeavesStopUp(s: Pool, i: nat, ok: bool)
    requires Inv(s) && s.main.Join? && MainEnabled(s) && MainStep(s, ok).main.Idle? && i < s.main.upTo
    ensures MainStep(s, ok).workers[i].stop && MainStep(s, ok).workers[i].pc.Exited? && !MainStep(s, ok).spawned
  {
    assert WorkerOk(ViewOf(s, i));
    MainTouchesOne(s, ok);
    assert Touched(s.main) == 0;
  }

  predicate NoStops(s: Pool) {
    forall i: nat :: i < |s.workers| ==> !s.workers[i].stop
  }

  /** Stop flags are up only in a rollback and after it. */
  ghost predicate OnlyRollbackStops(s: Pool) {
    NoStops(s) || (Stopping(s.main) && !s.main.final) || (s.main.Idle? && !s.result && !s.spawned)
  }

  /** No worker ever raises a stop flag, and main only while it is stopping threads. */
  lemma StopsRise(s: Pool, m: Move)
    requires Inv(s) && Enabled(s, m) && InternalMove(m) && !Stopping(s.main)
    ensures NoStops(s) ==> NoStops(Step(s, m))
  {
    hide Inv, NextTask, WorkerNames, MainNames, MainCells, Updated, MainTurn;
    if NoStops(s) {
      forall i: nat | i < |Step(s, m).workers| ensures !Step(s, m).workers[i].stop {
        assert !s.workers[i].stop;
      }
    }
  }

  ghost predicate NotFinal(main: MainPc) {
    Stopping(main) ==> !main.final
  }

  lemma StopsStay(s: Pool, m: Move)
    requires Inv(s) && OnlyRollbackStops(s) && Enabled(s, m) && InternalMove(m) && NotFinal(s.main)
    ensures OnlyRollbackStops(Step(s, m)) && NotFinal(Step(s, m).main)
  {
    if !Stopping(s.main) {
      StopsRise(s, m);
    }
    StopsTurn(s, m);
    hide Inv, Step;
  }

  lemma StopsTurn(s: Pool, m: Move)
    requires Inv(s) && Enabled(s, m) && InternalMove(m) && NotFinal(s.main)
    ensures var s' := Step(s, m);
            && NotFinal(s'.main)
            && (Stopping(s.main) ==> Stopping(s'.main) || (s'.main.Idle? && !s'.result && !s'.spawned))
            && (s.main.Idle? ==> s'.main == s.main && s'.result == s.result && s'.spawned == s.spawned)
            && (Stopping(s'.main) || !Stopping(s.main) || s'.main.Idle?)
  {
    hide WorkerOk, NextTask, WorkerNames, MainNames, MainCells, Updated, MainTouch;
  }

  lemma {:induction false} StopsPath(s: Pool, moves: seq<Move>, s': Pool)
    requires Inv(s) && OnlyRollbackStops(s) && NotFinal(s.main)
    requires Internal(moves) && Path(s, moves, s')
    ensures OnlyRollbackStops(s')
    decreases |moves|
  {
    hide Inv, OnlyRollbackStops;
    if moves != [] {
      assert InternalMove(moves[0]) && Internal(moves[1..]);
      StepInv(s, moves[0]);
      StopsStay(s, moves[0]);
      StopsPath(Step(s, moves[0]), moves[1..], s');
    }
  }

  /** A call leaves stop flags behind only when it failed and the threads are not up. */
  lemma CallKeepsStopsDown(s: Pool, c: Call, moves: seq<Move>, s': Pool)
    requires Inv(s) && NoStops(s) && Enabled(s, Begin(c)) && Internal(moves)
    requires Path(Step(s, Begin(c)), moves, s') && s'.main.Idle?
    ensures s'.result || s'.spawned ==> NoStops(s')
  {
    StepInv(s, Begin(c));
    assert Step(s, Begin(c)).workers == s.workers;
    StopsPath(Step(s, Begin(c)), moves, s');
  }

  /**
   * Once the threads are up and the buffers allocated, a call finishes exactly when no worker
   * that is owed a slice still carries a stop flag.
   */
  lemma CallFinishesExactly(s: Pool)
    requires Inv(s) && s.main == Write(0)
    ensures Healthy(s) ==> forall moves, s' :: Internal(moves) && Path(s, moves, s') ==>
                |moves| <= Measure(s) + 3 * Spurious(moves) && (Stalled(s') ==> s'.main.Idle? || s'.main.Destroyed?)
    ensures !Healthy(s) ==> forall moves, s' :: Path(s, moves, s') ==> !s'.main.Idle?
  {
    if Healthy(s) {
      forall moves, s' | Internal(moves) && Path(s, moves, s')
        ensures |moves| <= Measure(s) + 3 * Spurious(moves) && (Stalled(s') ==> s'.main.Idle? || s'.main.Destroyed?) {
        Finishes(s, moves, s');
      }
    } else {
      var i: nat :| i < |s.workers| && s.Job(i) != [] && s.workers[i].stop;
      assert WorkerOk(ViewOf(s, i));
      forall moves, s' | Path(s, moves, s') ensures !s'.main.Idle? {
        DoomedForever(s, i, moves, s');
      }
    }
  }

  /** Before any slice is handed over: starting threads, rolling back, or allocating. */
  predicate Starting(main: MainPc) {
    main.Spawn? || main.Allocate? || (Stopping(main) && !main.final)
  }

  /** A call that owes worker i a slice although its stop flag is up. */
  ghost predicate Hopeless(s: Pool, i: nat) {
    && Inv(s) && i < |s.workers| && s.workers[i].stop && s.Job(i) != [] && !s.call.mode.Inline?
    && (Starting(s.main) || Doomed(s, i) || (s.main.Idle? && !s.result))
  }

  /** Before the hand-over nothing but main's progress matters. */
  lemma StartingStays(s: Pool, i: nat, m: Move)
    requires Hopeless(s, i) && !Doomed(s, i) && Enabled(s, m) && InternalMove(m) && !m.Main? && Inv(Step(s, m))
    ensures Hopeless(Step(s, m), i)
  {
    hide Inv, Doomed, NextTask, WorkerNames, Updated;
  }

  lemma StartingTurns(s: Pool, i: nat, ok: bool)
    requires Hopeless(s, i) && !Doomed(s, i) && MainEnabled(s) && Inv(MainStep(s, ok))
    ensures Hopeless(MainStep(s, ok), i)
  {
    assert WorkerOk(ViewOf(s, i));
    assert WorkerOk(ViewOf(MainStep(s, ok), i));
    MainTouchesOne(s, ok);
    hide MainNames, Updated, Split.Flatten, Split.Grown;
  }

  lemma HopelessStays(s: Pool, i: nat, m: Move)
    requires Hopeless(s, i) && Enabled(s, m) && InternalMove(m)
    ensures Hopeless(Step(s, m), i)
  {
    StepInv(s, m);
    if Doomed(s, i) {
      DoomedStays(s, i, m);
      hide Inv, Doomed, Step;
      DoomedIsHopeless(Step(s, m), i);
    } else if m.Main? {
      StartingTurns(s, i, m.ok);
    } else {
      StartingStays(s, i, m);
    }
  }

  lemma DoomedIsHopeless(s: Pool, i: nat)
    requires Doomed(s, i)
    ensures Hopeless(s, i)
  {
  }

  lemma {:induction false} HopelessForever(s: Pool, i: nat, moves: seq<Move>, s': Pool)
    requires Hopeless(s, i) && Internal(moves) && Path(s, moves, s')
    ensures Hopeless(s', i)
    decreases |moves|
  {
    hide Hopeless;
    if moves != [] {
      assert InternalMove(moves[0]) && Internal(moves[1..]);
      HopelessStays(s, i, moves[0]);
      HopelessForever(Step(s, moves[0]), i, moves[1..], s');
    }
  }

  /** A call that gives work to a worker whose stop flag is up can never return true. */
  lemma RetryNeverSucceeds(s: Pool, c: Call, i: nat, moves: seq<Move>, s': Pool)
    requires Inv(s) && Enabled(s, Begin(c)) && i < |s.workers| && s.workers[i].stop && c.jobs[i] != []
    requires Internal(moves) && Path(Step(s, Begin(c)), moves, s') && s'.main.Idle?
    ensures !s'.result
  {
    StepInv(s, Begin(c));
    HopelessForever(Step(s, Begin(c)), i, moves, s');
  }

  /** A call on its way to success: running, or back with true. */
  ghost predicate Succeeding(s: Pool) {
    InCall(s.main) || (s.main.Idle? && s.result)
  }

  lemma SuccessStays(s: Pool, m: Move)
    requires Inv(s) && Succeeding(s) && Enabled(s, m) && InternalMove(m)
    requires m != Main(false) || s.call.mode.Inline?
    ensures Succeeding(Step(s, m)) && Step(s, m).call == s.call
  {
  }

  /** Granted everything and scheduled fairly, a healthy call comes back with true. */
  lemma {:induction false} DriveToSuccess(s: Pool) returns (moves: seq<Move>, s': Pool)
    requires Inv(s) && Healthy(s) && Succeeding(s)
    ensures Internal(moves) && Path(s, moves, s') && s'.main.Idle? && s'.result
    decreases Measure(s)
  {
    if s.main.Idle? {
      return [], s;
    }
    var m := DefaultMove(s);
    DefaultIsPossible(s);
    DefaultIsGranted(s);
    StepInv(s, m);
    HealthyStays(s, m);
    SuccessStays(s, m);
    hide Inv, Healthy, Succeeding, Measure, Step, DefaultMove;
    var rest, end := DriveToSuccess(Step(s, m));
    moves, s' := [m] + rest, end;
    PathStep(s, m, Step(s, m), rest, s');
  }

  /** Some schedule, with some outcome of thread creation and allocation, brings the call back with true. */
  ghost predicate MaySucceed(s: Pool, c: Call)
    requires Enabled(s, Begin(c))
  {
    exists moves, s' :: Internal(moves) && Path(Step(s, Begin(c)), moves, s') && s'.main.Idle? && s'.result
  }

  /** A request can succeed exactly when no worker that it gives work to carries a stop flag. */
  lemma CallSucceedsExactly(s: Pool, c: Call)
    requires Inv(s) && Enabled(s, Begin(c))
    ensures MaySucceed(s, c) <==> forall i: nat :: i < |s.workers| && c.jobs[i] != [] ==> !s.workers[i].stop
  {
    if forall i: nat :: i < |s.workers| && c.jobs[i] != [] ==> !s.workers[i].stop {
      StepInv(s, Begin(c));
      assert Healthy(Step(s, Begin(c)));
      var moves, s' := DriveToSuccess(Step(s, Begin(c)));
    } else {
      var i: nat :| i < |s.workers| && c.jobs[i] != [] && s.workers[i].stop;
      forall moves, s' | Internal(moves) && Path(Step(s, Begin(c)), moves, s') && s'.main.Idle? ensures !s'.result {
        RetryNeverSucceeds(s, c, i, moves, s');
      }
    }
  }

  /** A pool of two whose first worker is `w` and whose second never started. */
  function Half(c: Call, w: Worker, main: MainPc): Pool {
    Pool([w, Worker(NotStarted, Nobody, false, false, false, None)], main, false, [None, None], c, false,
         STAGING_INITIAL_CAPACITY, [None, None, None], [[], [], []], [[], [], []], [[], [], []])
  }

  lemma HalfMain(c: Call, w: Worker, main: MainPc, ok: bool)
    requires |c.jobs| == 3 && (main == Spawn(0) || (Stopping(main) && main.i == 0) || (main == Spawn(1) && !ok))
    requires main.Join? ==> w.pc.Exited?
    requires main.StopLock? ==> w.owner.Nobody?
    ensures Enabled(Half(c, w, main), Main(ok))
    ensures Step(Half(c, w, main), Main(ok))
         == Half(c, MainTouch(Half(c, w, main), ok, 0), MainTurn(Half(c, w, main), ok))
  {
    var s := Half(c, w, main);
    assert MainStep(s, ok).workers == [MainTouch(s, ok, 0), MainTouch(s, ok, 1)];
  }

  lemma PathStep(s: Pool, m: Move, t: Pool, moves: seq<Move>, s': Pool)
    requires Enabled(s, m) && t == Step(s, m) && Path(t, moves, s')
    ensures Path(s, [m] + moves, s')
  {
    assert ([m] + moves)[1..] == moves;
  }

  /** Such a state is reachable: two workers, the second thread refused. */
  lemma PartialStartIsReachable(c: Call) returns (s: Pool, moves: seq<Move>, s': Pool)
    requires |c.jobs| == 3 && c.mode.Staged?
    ensures Initial(s) && Path(s, moves, s') && |s'.workers| == 2
    ensures s'.main.Idle? && !s'.spawned && s'.workers[0].stop
  {
    hide Path, MainStep;
    var w := Worker(NotStarted, Nobody, false, false, false, None);
    var started := w.(pc := AtLock);
    s := Half(c, w, Idle);
    s' := Half(c, started.(pc := Exited, stop := true), Idle);
    moves := BackOut(c, started, s');
    HalfMain(c, started, Spawn(1), false);
    PathStep(Half(c, started, Spawn(1)), Main(false), Half(c, started, StopLock(0, 1, false)), moves, s');
    moves := [Main(false)] + moves;
    HalfMain(c, w, Spawn(0), true);
    PathStep(Half(c, w, Spawn(0)), Main(true), Half(c, started, Spawn(1)), moves, s');
    moves := [Main(true)] + moves;
    PathStep(s, Begin(c), Half(c, w, Spawn(0)), moves, s');
    moves := [Begin(c)] + moves;
  }

  lemma BackOut(c: Call, w: Worker, s': Pool) returns (moves: seq<Move>)
    requires |c.jobs| == 3 && w == Worker(AtLock, Nobody, false, false, false, None)
    requires s' == Half(c, w.(pc := Exited, stop := true), Idle)
    ensures Path(Half(c, w, StopLock(0, 1, false)), moves, s')
  {
    hide MainStep;
    var held, told := w.(owner := ByMain), w.(stop := true);
    assert Path(s', [], s');
    moves := [];
    HalfMain(c, told.(pc := Exited), Join(0, 1, false), true);
    PathStep(Half(c, told.(pc := Exited), Join(0, 1, false)), Main(true), s', moves, s');
    moves := [Main(true)] + moves;
    var checking := told.(pc := AtCheck, owner := ByWorker);
    PathStep(Half(c, checking, Join(0, 1, false)), Work(0), Half(c, told.(pc := Exited), Join(0, 1, false)), moves, s');
    moves := [Work(0)] + moves;
    PathStep(Half(c, told, Join(0, 1, false)), Work(0), Half(c, checking, Join(0, 1, false)), moves, s');
    moves := [Work(0)] + moves;
    HalfMain(c, held.(stop := true), StopSignal(0, 1, false), true);
    PathStep(Half(c, held.(stop := true), StopSignal(0, 1, false)), Main(true),
             Half(c, told, Join(0, 1, false)), moves, s');
    moves := [Main(true)] + moves;
    HalfMain(c, held, StopSet(0, 1, false), true);
    PathStep(Half(c, held, StopSet(0, 1, false)), Main(true),
             Half(c, held.(stop := true), StopSignal(0, 1, false)), moves, s');
    moves := [Main(true)] + moves;
    HalfMain(c, w, StopLock(0, 1, false), true);
    PathStep(Half(c, w, StopLock(0, 1, false)), Main(true), Half(c, held, StopSet(0, 1, false)), moves, s');
    moves := [Main(true)] + moves;
  }
}
