/**
 * The context as its callers drive it: staging, submit, dispatch_and_wait, the parallel for,
 * foreach_slot and destroy. Each parallel section runs the pool protocol under a schedule chosen
 * from outside.
 */
module Dispatch {
  import opened Options
  import opened PoolProtocol
  import opened PoolInvariant
  import opened PoolTheorems
  import opened PoolLiveness
  import opened PoolSlots
  import Split
  import Words
  import Reduction

  // ----- bookkeeping over executors

  lemma {:induction false} FlattenAdds<T>(a: seq<seq<T>>, b: seq<seq<T>>, c: seq<seq<T>>)
    requires |a| == |b| == |c| && forall e :: 0 <= e < |a| ==> c[e] == a[e] + b[e]
    ensures multiset(Split.Flatten(c)) == multiset(Split.Flatten(a)) + multiset(Split.Flatten(b))
    decreases |a|
  {
    if |a| > 0 {
      FlattenAdds(a[..|a| - 1], b[..|b| - 1], c[..|c| - 1]);
    }
  }

  lemma {:induction false} FlattenAppend<T>(a: seq<seq<T>>, b: seq<seq<T>>)
    ensures Split.Flatten(a + b) == Split.Flatten(a) + Split.Flatten(b)
    decreases |b|
  {
    if b == [] {
      assert a + b == a;
    } else {
      FlattenAppend(a, b[..|b| - 1]);
      var last := b[|b| - 1];
      assert (a + b)[..|a + b| - 1] == a + b[..|b| - 1] && (a + b)[|a + b| - 1] == last;
      assert Split.Flatten(b) == Split.Flatten(b[..|b| - 1]) + last;
    }
  }

  lemma FlattenOne<T>(a: seq<T>)
    ensures Split.Flatten([a]) == a
  {
    assert [a][..0] == [];
  }

  lemma {:induction false} FlattenBlank<T>(n: nat, last: seq<T>)
    ensures Split.Flatten(seq(n, i => []) + [last]) == last
  {
    var blank: seq<seq<T>> := seq(n, i => []);
    FlattenAppend(blank, [last]);
    FlattenOne(last);
    BlankFlat<T>(n);
  }

  lemma {:induction false} BlankFlat<T>(n: nat)
    ensures var blank: seq<seq<T>> := seq(n, i => []); Split.Flatten(blank) == []
  {
    var blank: seq<seq<T>> := seq(n, i => []);
    if n > 0 {
      BlankFlat<T>(n - 1);
      assert blank[..n - 1] == seq(n - 1, i => []);
    }
  }

  /** Main keeps slice 0 of a parallel for; executor order only rotates the slices. */
  lemma RotationKeepsAll<T>(slices: seq<seq<T>>, jobs: seq<seq<T>>)
    requires |slices| >= 1 && jobs == slices[1..] + [slices[0]]
    ensures multiset(Split.Flatten(jobs)) == multiset(Split.Flatten(slices))
  {
    assert slices == [slices[0]] + slices[1..];
    FlattenAppend([slices[0]], slices[1..]);
    FlattenAppend(slices[1..], [slices[0]]);
    FlattenOne(slices[0]);
  }

  // ----- conservation

  /** Tasks run plus tasks staged are the tasks accepted. */
  ghost predicate Conserved(history: seq<seq<Task>>, staging: seq<Task>, accepted: seq<Task>) {
    multiset(Split.Flatten(history)) + multiset(staging) == multiset(accepted)
  }

  /** Between the two histories exactly these tasks have run, each once, on whatever executor. */
  ghost predicate Ran(before: seq<seq<Task>>, after: seq<seq<Task>>, tasks: seq<Task>) {
    multiset(Split.Flatten(after)) == multiset(Split.Flatten(before)) + multiset(tasks)
  }

  /** Each executor has run its own balanced slice of the tasks, in order, after what it ran before. */
  ghost predicate InSlices(before: Pool, after: Pool, tasks: seq<Task>) {
    && |after.history| == |before.history| == |before.workers| + 1 == |after.workers| + 1
    && forall e: nat :: e <= |before.workers| ==>
         after.history[e] == before.history[e] + Split.Slice(tasks, |before.workers| + 1, e)
  }

  lemma InSlicesMeans(before: Pool, after: Pool, tasks: seq<Task>) returns (pieces: seq<seq<Task>>)
    requires InSlices(before, after, tasks)
    ensures |pieces| == |after.history| == |before.history| && Split.EvenCut(tasks, pieces)
    ensures forall e :: 0 <= e < |pieces| ==> after.history[e] == before.history[e] + pieces[e]
  {
    hide Split.Slice;
    var parts := |before.workers| + 1;
    pieces := seq(parts, i requires 0 <= i < parts => Split.Slice(tasks, parts, i));
    Split.SlicesAreEven(tasks, parts);
  }

  /** Main has run all the tasks, in order, and nobody else has run anything. */
  ghost predicate MainAlone(before: Pool, after: Pool, tasks: seq<Task>) {
    && |before.history| == |before.workers| + 1
    && after.history == before.history[|before.workers| := before.history[|before.workers|] + tasks]
  }

  /** Each worker has run its own chunk, in order, and main chunk 0. */
  ghost predicate InChunks(before: Pool, after: Pool, tasks: seq<Task>) {
    && |after.history| == |before.history| == |before.workers| + 1 == |after.workers| + 1
    && forall e: nat :: e <= |before.workers| ==>
         after.history[e] == before.history[e]
           + Split.Slice(tasks, |before.workers| + 1, if e < |before.workers| then e + 1 else 0)
  }

  /** The calls of an iteration function. */
  function Visits(callback: nat, indices: seq<nat>): (tasks: seq<Task>)
    ensures |tasks| == |indices| && forall k :: 0 <= k < |indices| ==> tasks[k] == Visit(callback, indices[k])
  {
    seq(|indices|, k requires 0 <= k < |indices| => Visit(callback, indices[k]))
  }

  /** What a parallel for over a range owes its caller. */
  function Loop(callback: nat, start: nat, end: nat, step: nat): seq<Task>
    requires step >= 1
  {
    if start < end then Visits(callback, Split.Iterations(start, step, 0, Split.Total(start, end, step))) else []
  }

  lemma {:induction false} DistinctCount<T>(items: seq<T>, x: T)
    requires forall i, j :: 0 <= i < j < |items| ==> items[i] != items[j]
    ensures multiset(items)[x] == if x in items then 1 else 0
    decreases |items|
  {
    if items != [] {
      var init, last := items[..|items| - 1], items[|items| - 1];
      assert items == init + [last];
      DistinctCount(init, x);
    }
  }

  /** In terms of the range alone: every index of the stride inside it, once, in rising order, and nothing else. */
  lemma LoopIs(callback: nat, start: nat, end: nat, step: nat)
    requires step >= 1
    ensures var visited := Loop(callback, start, end, step);
            && (forall k :: 0 <= k < |visited| ==> visited[k].Visit? && visited[k].callback == callback)
            && (forall j, k :: 0 <= j < k < |visited| ==> visited[j].index < visited[k].index)
            && (forall task: Task :: multiset(visited)[task] ==
                  if task.Visit? && task.callback == callback && start <= task.index < end
                     && (task.index - start) % step == 0 then 1 else 0)
  {
    var visited := Loop(callback, start, end, step);
    if start < end {
      var indices := Split.Iterations(start, step, 0, Split.Total(start, end, step));
      hide Split.Total, Split.Iteration;
      assert visited == Visits(callback, indices);
      forall j: nat, k: nat | j < k < |visited| ensures visited[j].index < visited[k].index {
        Split.IterationsDistinct(start, step, j, k);
      }
      forall task: Task
        ensures multiset(visited)[task] ==
                  if task.Visit? && task.callback == callback && start <= task.index < end
                     && (task.index - start) % step == 0 then 1 else 0 {
        DistinctCount(visited, task);
        if task.Visit? && task.callback == callback {
          Split.IterationsExact(start, end, step, task.index);
          VisitIn(callback, indices, task.index);
        }
      }
    }
  }

  lemma VisitIn(callback: nat, indices: seq<nat>, x: nat)
    ensures Visit(callback, x) in Visits(callback, indices) <==> x in indices
  {
    if x in indices {
      var k: nat :| k < |indices| && indices[k] == x;
      assert Visits(callback, indices)[k] == Visit(callback, x);
    }
  }

  lemma LoopCounts(callback: nat, start: nat, end: nat, step: nat, before: seq<seq<Task>>, after: seq<seq<Task>>)
    requires step >= 1 && Ran(before, after, Loop(callback, start, end, step))
    ensures forall task: Task ::
              multiset(Split.Flatten(after))[task] == multiset(Split.Flatten(before))[task]
                + if task.Visit? && task.callback == callback && start <= task.index < end
                     && (task.index - start) % step == 0 then 1 else 0
  {
    LoopIs(callback, start, end, step);
    hide Loop;
  }

  /** Running what is staged leaves the total as it was. */
  lemma StagedHasRun(before: seq<seq<Task>>, after: seq<seq<Task>>, staging: seq<Task>, accepted: seq<Task>)
    requires Conserved(before, staging, accepted) && Ran(before, after, staging)
    ensures Conserved(after, [], accepted)
  {
  }

  /** New work that has been run adds to both sides. */
  lemma MoreHasRun(before: seq<seq<Task>>, after: seq<seq<Task>>, staging: seq<Task>, accepted: seq<Task>,
      more: seq<Task>)
    requires Conserved(before, staging, accepted) && Ran(before, after, more)
    ensures Conserved(after, staging, accepted + more)
  {
  }

  lemma NothingRan(history: seq<seq<Task>>)
    ensures Ran(history, history, [])
  {
  }

  lemma NothingAlone(s: Pool)
    requires s.Formed()
    ensures MainAlone(s, s, [])
  {
    var n := |s.workers|;
    assert s.history[n] + [] == s.history[n];
    assert s.history[n := s.history[n]] == s.history;
  }

  lemma SameTasksRan(before: seq<seq<Task>>, after: seq<seq<Task>>, tasks: seq<Task>, others: seq<Task>)
    requires Ran(before, after, tasks) && multiset(tasks) == multiset(others)
    ensures Ran(before, after, others)
  {
  }

  lemma MoreStaged(history: seq<seq<Task>>, staging: seq<Task>, accepted: seq<Task>, task: Task)
    requires Conserved(history, staging, accepted)
    ensures Conserved(history, staging + [task], accepted + [task])
  {
  }

  // ----- scheduling

  predicate Schedulable(s: Pool, m: Move) {
    Enabled(s, m) && !m.Begin? && !m.Shutdown?
  }

  // ----- how a request ends

  /** Main is taking the pool down for good. */
  predicate Final(main: MainPc) {
    main.Destroyed? || (Stopping(main) && main.final)
  }

  lemma FinalStays(s: Pool, m: Move)
    requires Enabled(s, m) && InternalMove(m)
    ensures Final(Step(s, m).main) == Final(s.main)
  {
  }

  /** Every request for a thread or for memory is granted. */
  ghost predicate Granted(moves: seq<Move>) {
    forall k :: 0 <= k < |moves| ==> moves[k] != Main(false)
  }

  /** As long as the schedule lasts and what it lists is possible, that is what happens. */
  ghost predicate Obeys(s: Pool, moves: seq<Move>, schedule: seq<Move>)
    decreases |moves|
  {
    moves != [] && schedule != [] ==>
      && Enabled(s, moves[0]) && (Schedulable(s, schedule[0]) ==> moves[0] == schedule[0])
      && Obeys(Step(s, moves[0]), moves[1..], schedule[1..])
  }

  lemma {:induction false} ObeysAppend(s: Pool, moves: seq<Move>, s': Pool, schedule: seq<Move>, m: Move)
    requires Path(s, moves, s') && Obeys(s, moves, schedule) && Enabled(s', m)
    requires |moves| < |schedule| && Schedulable(s', schedule[|moves|]) ==> m == schedule[|moves|]
    ensures Obeys(s, moves + [m], schedule)
    decreases |moves|
  {
    hide Step;
    if moves == [] {
      assert [m][1..] == [];
    } else {
      assert (moves + [m])[1..] == moves[1..] + [m];
      if schedule != [] {
        ObeysAppend(Step(s, moves[0]), moves[1..], s', schedule[1..], m);
      }
    }
  }

  /** One call from request to return, under a schedule. */
  ghost predicate Played(before: Pool, call: Call, schedule: seq<Move>, moves: seq<Move>, after: Pool) {
    && Enabled(before, Begin(call)) && Internal(moves)
    && Path(Step(before, Begin(call)), moves, after) && Obeys(Step(before, Begin(call)), moves, schedule)
  }

  /** With the threads up, a refusal of the memory that a call needs first makes it fail. */
  lemma RefusedAtOnce(before: Pool, call: Call, schedule: seq<Move>, moves: seq<Move>, after: Pool)
    requires Inv(before) && before.spawned && Played(before, call, schedule, moves, after) && after.main.Idle?
    requires call.mode.For? || (call.mode.Staged? && before.buffer < |Split.Flatten(call.jobs)|)
    requires schedule != [] && schedule[0] == Main(false)
    ensures Refused(Step(before, Begin(call)), moves)
  {
    var first := Step(before, Begin(call));
    RefusedMemoryReturnsFalse(before, call);
    assert first.main.Allocate? && Schedulable(first, Main(false));
    hide Inv;
  }

  /** What a call that has been played did to the pool. */
  lemma CallOutcome(before: Pool, call: Call, schedule: seq<Move>, moves: seq<Move>, after: Pool)
    requires Inv(before) && Attributed(before) && Played(before, call, schedule, moves, after) && after.main.Idle?
    ensures Inv(after) && Attributed(after) && |after.workers| == |before.workers|
    ensures |after.history| == |before.history| == |call.jobs|
    ensures after.result ==> forall e :: 0 <= e < |call.jobs| ==> after.history[e] == before.history[e] + call.jobs[e]
    ensures after.result ==> Ran(before.history, after.history, Split.Flatten(call.jobs))
    ensures !after.result ==> after.history == before.history
    ensures after.buffer == if after.result && call.mode.Staged?
                            then Split.Grown(before.buffer, |Split.Flatten(call.jobs)|) else before.buffer
    ensures NoStops(before) && (after.result || after.spawned) ==> NoStops(after)
    ensures call.mode.Inline? ==> after.spawned == before.spawned
  {
    Barrier(before, call, moves, after);
    StepInv(before, Begin(call));
    PathInv(Step(before, Begin(call)), moves, after);
    StepAttributed(before, Begin(call));
    PathAttributed(Step(before, Begin(call)), moves, after);
    InvFormed(before);
    InvFormed(after);
    if NoStops(before) { CallKeepsStopsDown(before, call, moves, after); }
    if after.result { FlattenAdds(before.history, call.jobs, after.history); }
    hide Inv, Attributed, Step, Path, Obeys, NoStops, Split.Flatten, Split.Grown;
  }

  /** What it returned: false exactly after a refusal, and never when nothing has to be asked for. */
  lemma CallAnswer(before: Pool, call: Call, schedule: seq<Move>, moves: seq<Move>, after: Pool)
    requires Inv(before) && Played(before, call, schedule, moves, after) && after.main.Idle?
    ensures after.result <==> !Refused(Step(before, Begin(call)), moves)
    ensures before.spawned && call.mode.Staged? && |Split.Flatten(call.jobs)| <= before.buffer ==> after.result
    ensures (before.spawned && schedule != [] && schedule[0] == Main(false)
             && (call.mode.For? || (call.mode.Staged? && |Split.Flatten(call.jobs)| > before.buffer))) ==> !after.result
  {
    CallFailsExactly(before, call, moves, after);
    if before.spawned && call.mode.Staged? && |Split.Flatten(call.jobs)| <= before.buffer {
      SuppliedCallSucceeds(before, call, moves, after);
    }
    if before.spawned && schedule != [] && schedule[0] == Main(false)
       && (call.mode.For? || (call.mode.Staged? && |Split.Flatten(call.jobs)| > before.buffer)) {
      RefusedAtOnce(before, call, schedule, moves, after);
    }
    hide Inv, Step, Path, Obeys, Refused;
  }

  /** The latest call was played, and whether a thread or memory that it needed was refused. */
  ghost predicate Answered(before: Pool, schedule: seq<Move>, after: Pool, refused: bool) {
    exists moves :: Played(before, after.call, schedule, moves, after)
                    && (refused <==> Refused(Step(before, Begin(after.call)), moves))
  }

  /**
   * Runs one request to its end. The schedule decides the interleaving, the spurious wakeups and
   * the outcome of thread creation and allocation; once it is used up, every thread that can move does.
   */
  method RunToEnd(start: Pool, request: Move, schedule: seq<Move>) returns (end: Pool, ghost moves: seq<Move>)
    requires Inv(start) && start.main.Idle? && Enabled(start, request) && (request.Begin? || request.Shutdown?)
    requires Healthy(Step(start, request))
    ensures Inv(end) && Internal(moves) && Path(Step(start, request), moves, end)
    ensures Obeys(Step(start, request), moves, schedule) && end.call == Step(start, request).call
    ensures if request.Begin? then end.main.Idle? else end.main.Destroyed?
    ensures request.Begin? && (Granted(schedule) || request.call.mode.Inline?) ==> end.result
  {
    StepInv(start, request);
    end := Step(start, request);
    ghost var first := end;
    ghost var smooth := request.Begin? && (Granted(schedule) || request.call.mode.Inline?);
    moves := [];
    assert Internal(moves);
    EmptyPath(first);
    assert Final(end.main) == request.Shutdown? && (smooth ==> Succeeding(end));
    assert request.Begin? ==> end.call == request.call;
    assert Obeys(first, moves, schedule);
    hide Obeys, Schedulable, Inv, Healthy, Measure, Path, DefaultMove, Step, Succeeding, Enabled, Final, Granted, InternalMove, Internal;
    var turn: nat := 0;
    while !end.main.Idle? && !end.main.Destroyed?
      invariant turn == |moves| && Obeys(first, moves, schedule) && end.call == first.call
      invariant Inv(end) && Healthy(end) && Internal(moves) && Path(first, moves, end)
      invariant Final(end.main) == request.Shutdown?
      invariant smooth ==> Succeeding(end)
      decreases if turn < |schedule| then |schedule| - turn else 0, Measure(end)
    {
      DefaultIsPossible(end);
      var move := DefaultMove(end);
      DefaultIsGranted(end);
      if turn < |schedule| && Schedulable(end, schedule[turn]) {
        move := schedule[turn];
        ScheduledIsInternal(end, schedule, turn);
      }
      ObeysAppend(first, moves, end, schedule, move);
      turn := turn + 1;
      SameCall(end, move);
      StepInv(end, move);
      HealthyStays(end, move);
      FinalStays(end, move);
      if smooth { SuccessStays(end, move); }
      PathAppend(first, moves, end, move);
      InternalAppend(moves, move);
      moves := moves + [move];
      end := Step(end, move);
    }
    if smooth { SuccessMeansTrue(end); }
    FinalMeansDestroyed(end);
  }

  lemma SameCall(s: Pool, m: Move)
    requires Enabled(s, m) && InternalMove(m)
    ensures Step(s, m).call == s.call
  {
  }

  lemma FinalMeansDestroyed(s: Pool)
    requires s.main.Idle? || s.main.Destroyed?
    ensures Final(s.main) <==> s.main.Destroyed?
  {
  }

  lemma InternalAppend(moves: seq<Move>, m: Move)
    requires Internal(moves) && InternalMove(m)
    ensures Internal(moves + [m])
  {
  }

  lemma ScheduledIsInternal(s: Pool, schedule: seq<Move>, turn: nat)
    requires turn < |schedule| && Schedulable(s, schedule[turn])
    ensures Enabled(s, schedule[turn]) && InternalMove(schedule[turn])
    ensures Granted(schedule) ==> schedule[turn] != Main(false)
  {
  }

  lemma SuccessMeansTrue(s: Pool)
    requires Succeeding(s) && s.main.Idle?
    ensures s.result
  {
  }

  lemma EmptyPath(s: Pool)
    ensures Path(s, [], s)
  {
  }

  // ----- the context

  function NewPool(threadCount: nat): Pool {
    Pool(seq(threadCount, i => Worker(NotStarted, Nobody, false, false, false, None)), Idle, false,
         NoCells(threadCount), Call(Inline, seq(threadCount + 1, e => [])), true, STAGING_INITIAL_CAPACITY,
         seq(threadCount + 1, e => None), seq(threadCount + 1, e => []),
         seq(threadCount + 1, e => []), seq(threadCount + 1, e => []))
  }

  lemma NewPoolIsQuiet(threadCount: nat)
    ensures Initial(NewPool(threadCount)) && Inv(NewPool(threadCount)) && Attributed(NewPool(threadCount))
    ensures Conserved(NewPool(threadCount).history, [], [])
  {
    InitialInv(NewPool(threadCount));
    InitialAttributed(NewPool(threadCount));
    BlankFlat<Task>(threadCount + 1);
    assert NewPool(threadCount).history == seq(threadCount + 1, e => []);
  }

  class Dispatcher {
    var pool: Pool
    var staging: seq<Task>
    ghost var accepted: seq<Task>    // every entry and iteration taken on so far
    ghost var order: nat             // the dispatch buffer has room for 2^order entries

    ghost predicate Valid()
      reads this
    {
      && Inv(pool) && pool.main.Idle? && Attributed(pool)
      && pool.buffer == Words.Pow2(order) <= Words.TWO63
      && Conserved(pool.history, staging, accepted)
    }

    /** No earlier start of the threads failed half way. */
    predicate NoStopFlags()
      reads this
    {
      NoStops(pool)
    }

    constructor (threadCount: nat)
      ensures Valid() && NoStopFlags() && Initial(pool)
      ensures |pool.workers| == threadCount && staging == [] && accepted == []
    {
      pool, staging, accepted, order := NewPool(threadCount), [], [], 10;
      new;
      assert Words.Pow2(10) == 1024;
      NewPoolIsQuiet(threadCount);
    }

    /** Submit one task; a failed push of the staging array leaves everything as it was. */
    method Submit(task: Task, pushed: bool) returns (ok: bool)
      requires Valid()
      modifies this`staging, this`accepted
      ensures Valid() && ok == pushed
      ensures staging == old(staging) + (if ok then [task] else [])
      ensures accepted == old(accepted) + (if ok then [task] else [])
    {
      ok := pushed;
      if ok {
        MoreStaged(pool.history, staging, accepted, task);
        staging := staging + [task];
        accepted := accepted + [task];
      }
    }

    /** Submit several; pushes succeed until the `room`-th, and what was pushed before a failure stays. */
    method SubmitBatch(tasks: seq<Task>, room: nat) returns (ok: bool)
      requires Valid()
      modifies this`staging, this`accepted
      ensures Valid() && ok == (0 < |tasks| <= room)
      ensures var taken := tasks[..Split.Min(|tasks|, room)];
              staging == old(staging) + taken && accepted == old(accepted) + taken
    {
      hide Inv, Attributed, Conserved, Words.Pow2;
      if |tasks| == 0 {
        return false;
      }
      for i := 0 to |tasks|
        invariant Valid() && i <= room
        invariant staging == old(staging) + tasks[..i] && accepted == old(accepted) + tasks[..i]
      {
        var pushed := Submit(tasks[i], i < room);
        if !pushed {
          return false;
        }
        assert tasks[..i + 1] == tasks[..i] + [tasks[i]];
      }
      return true;
    }

    /** One call of the pool, from request to return; only a start that fails half way leaves stop flags behind. */
    method RunCall(call: Call, schedule: seq<Move>) returns (ok: bool, ghost moves: seq<Move>)
      requires Inv(pool) && Attributed(pool) && pool.main.Idle? && ValidCall(pool, call)
      requires NoStopFlags() || call.mode.Inline?
      modifies this`pool
      ensures Inv(pool) && Attributed(pool) && pool.main.Idle?
      ensures |pool.workers| == |old(pool).workers| && ok == pool.result
      ensures |pool.history| == |old(pool).history| == |call.jobs|
      ensures ok ==> forall e :: 0 <= e < |call.jobs| ==> pool.history[e] == old(pool).history[e] + call.jobs[e]
      ensures ok ==> Ran(old(pool).history, pool.history, Split.Flatten(call.jobs))
      ensures !ok ==> pool.history == old(pool).history
      ensures pool.buffer == if ok && call.mode.Staged?
                             then Split.Grown(old(pool).buffer, |Split.Flatten(call.jobs)|) else old(pool).buffer
      ensures old(NoStopFlags()) && (ok || pool.spawned) ==> NoStopFlags()
      ensures call.mode.Inline? ==> pool.spawned == old(pool).spawned
      ensures Granted(schedule) || call.mode.Inline? ==> ok
      ensures pool.call == call && Played(old(pool), call, schedule, moves, pool)
      ensures ok <==> !Refused(Step(old(pool), Begin(call)), moves)
      ensures old(pool).spawned && call.mode.Staged? && |Split.Flatten(call.jobs)| <= old(pool).buffer ==> ok
      ensures (old(pool).spawned && schedule != [] && schedule[0] == Main(false)
               && (call.mode.For? || (call.mode.Staged? && |Split.Flatten(call.jobs)| > old(pool).buffer))) ==> !ok
    {
      var end;
      end, moves := RunToEnd(pool, Begin(call), schedule);
      CallOutcome(pool, call, schedule, moves, end);
      CallAnswer(pool, call, schedule, moves, end);
      hide Inv, Attributed, Played, Refused, Granted, Ran, NoStops, Split.Grown, Split.Flatten, Step, Path, Obeys, Internal;
      pool := end;
      ok := end.result;
    }

    /**
     * Dispatch everything staged and wait. True means every staged task has run exactly once, each
     * executor its own balanced slice in order; false means nothing ran and the staging is intact.
     */
    method DispatchAndWait(schedule: seq<Move>) returns (ok: bool, ghost refused: bool)
      requires Valid() && (NoStopFlags() || |pool.workers| == 0 || |staging| <= 1) && |staging| <= Words.TWO63
      modifies this`pool, this`staging, this`order
      ensures Valid() && |pool.workers| == |old(pool).workers|
      ensures ok ==> staging == [] && Ran(old(pool).history, pool.history, old(staging))
      ensures ok && |old(staging)| > 1 && |pool.workers| > 0 ==>
                && InSlices(old(pool), pool, old(staging))
                && exists pieces ::
                     && |pieces| == |pool.history| == |old(pool).history| && Split.EvenCut(old(staging), pieces)
                     && forall e :: 0 <= e < |pieces| ==> pool.history[e] == old(pool).history[e] + pieces[e]
      ensures |old(staging)| <= 1 || |pool.workers| == 0 ==> ok && MainAlone(old(pool), pool, old(staging))
      ensures |old(staging)| <= 1 || |pool.workers| == 0 ==> pool.spawned == old(pool).spawned
      ensures pool.buffer == if ok && |old(staging)| > 1 && |pool.workers| > 0
                             then Split.Grown(old(pool).buffer, |old(staging)|) else old(pool).buffer
      ensures !ok ==> staging == old(staging) && pool.history == old(pool).history
      ensures old(NoStopFlags()) && (ok || pool.spawned) ==> NoStopFlags()
      ensures Granted(schedule) ==> ok
      ensures ok <==> !refused
      ensures |old(staging)| > 1 && |pool.workers| > 0 ==> Answered(old(pool), schedule, pool, refused)
      ensures old(pool).spawned && |old(staging)| <= old(pool).buffer ==> ok
      ensures (old(pool).spawned && schedule != [] && schedule[0] == Main(false)
               && |old(staging)| > 1 && |pool.workers| > 0 && |old(staging)| > old(pool).buffer) ==> !ok
    {
      InvFormed(pool);
      hide Answered, Split.EvenCut, Inv, Attributed, Conserved, Ran, InSlices, Words.Pow2, Split.Grown, Granted;
      if |staging| == 0 {
        NothingRan(pool.history);
        NothingAlone(pool);
        return true, false;
      }
      ok, refused := RunStaged(schedule);
      if ok {
        if |staging| > 1 && |pool.workers| > 0 { var pieces := InSlicesMeans(old(pool), pool, staging); }
        StagedHasRun(old(pool).history, pool.history, staging, accepted);
        staging := [];
      }
    }

    /** A single task, or no workers: main runs everything. Otherwise the staged tasks are cut into slices. */
    method RunStaged(schedule: seq<Move>) returns (ok: bool, ghost refused: bool)
      requires Inv(pool) && Attributed(pool) && pool.main.Idle? && 1 <= |staging| <= Words.TWO63
      requires NoStopFlags() || |pool.workers| == 0 || |staging| == 1
      requires pool.buffer == Words.Pow2(order) <= Words.TWO63
      modifies this`pool, this`order
      ensures Inv(pool) && Attributed(pool) && pool.main.Idle? && |pool.workers| == |old(pool).workers|
      ensures pool.buffer == Words.Pow2(order) <= Words.TWO63
      ensures ok ==> Ran(old(pool).history, pool.history, staging)
      ensures ok && |staging| > 1 && |pool.workers| > 0 ==> InSlices(old(pool), pool, staging)
      ensures |staging| == 1 || |pool.workers| == 0 ==> ok && MainAlone(old(pool), pool, staging)
      ensures |staging| == 1 || |pool.workers| == 0 ==> pool.spawned == old(pool).spawned
      ensures pool.buffer == if ok && |staging| > 1 && |pool.workers| > 0
                             then Split.Grown(old(pool).buffer, |staging|) else old(pool).buffer
      ensures !ok ==> pool.history == old(pool).history
      ensures old(NoStopFlags()) && (ok || pool.spawned) ==> NoStopFlags()
      ensures Granted(schedule) ==> ok
      ensures ok <==> !refused
      ensures |staging| > 1 && |pool.workers| > 0 ==> Answered(old(pool), schedule, pool, refused)
      ensures old(pool).spawned && |staging| <= old(pool).buffer ==> ok
      ensures (old(pool).spawned && schedule != [] && schedule[0] == Main(false)
               && |staging| > 1 && |pool.workers| > 0 && |staging| > old(pool).buffer) ==> !ok
    {
      hide Answered, Inv, Attributed, Conserved, Ran, Split.Slice, Words.Pow2, Granted, InSlices, MainAlone, Split.Grown;
      if |pool.workers| == 0 || |staging| == 1 {
        RunInline(staging, schedule);
        ok, refused := true, false;
      } else {
        ok, refused := DispatchSlices(schedule);
        if ok {
          order := Split.GrownFits(old(pool).buffer, |staging|, order);
        }
      }
    }

    /** The parallel path of dispatch: one balanced slice per executor, main's own last. */
    method DispatchSlices(schedule: seq<Move>) returns (ok: bool, ghost refused: bool)
      requires Inv(pool) && Attributed(pool) && pool.main.Idle? && NoStopFlags()
      requires 1 < |staging| <= Words.TWO63 && |pool.workers| > 0
      modifies this`pool
      ensures Inv(pool) && Attributed(pool) && pool.main.Idle? && |pool.workers| == |old(pool).workers|
      ensures ok ==> Ran(old(pool).history, pool.history, staging) && InSlices(old(pool), pool, staging)
      ensures pool.buffer == if ok then Split.Grown(old(pool).buffer, |staging|) else old(pool).buffer
      ensures !ok ==> pool.history == old(pool).history
      ensures ok || pool.spawned ==> NoStopFlags()
      ensures Granted(schedule) ==> ok
      ensures (ok <==> !refused) && Answered(old(pool), schedule, pool, refused)
      ensures old(pool).spawned && |staging| <= old(pool).buffer ==> ok
      ensures (old(pool).spawned && schedule != [] && schedule[0] == Main(false)
               && |staging| > old(pool).buffer) ==> !ok
    {
      InvFormed(pool);
      hide Played, Refused, Inv, Attributed, Conserved, Ran, Split.Slice, Words.Pow2, Granted, Split.Grown;
      var jobs := CutSlices(staging, |pool.workers| + 1);
      ghost var moves;
      ok, moves := RunCall(Call(Staged, jobs), schedule);
      refused := !ok;
    }

    /** Main runs everything itself. */
    method RunInline(tasks: seq<Task>, schedule: seq<Move>)
      requires Inv(pool) && Attributed(pool) && pool.main.Idle?
      modifies this`pool
      ensures Inv(pool) && Attributed(pool) && pool.main.Idle? && |pool.workers| == |old(pool).workers|
      ensures Ran(old(pool).history, pool.history, tasks) && MainAlone(old(pool), pool, tasks)
      ensures pool.buffer == old(pool).buffer && pool.spawned == old(pool).spawned
      ensures old(NoStopFlags()) ==> NoStopFlags()
    {
      InvFormed(pool);
      hide Inv, Attributed, Granted, Played, Refused, NoStops, Ran, Split.Grown, Split.Flatten;
      var blank: seq<seq<Task>> := seq(|pool.workers|, i => []);
      var ok, moves := RunCall(Call(Inline, blank + [tasks]), schedule);
      FlattenBlank(|blank|, tasks);
      forall e: nat | e < |blank| ensures pool.history[e] == old(pool).history[e] {
        assert (blank + [tasks])[e] == [];
        assert old(pool).history[e] + [] == old(pool).history[e];
      }
      assert pool.history == old(pool).history[|blank| := old(pool).history[|blank|] + tasks];
    }

    /**
     * The parallel for. True means every index of the stride inside the range was visited exactly
     * once and nothing else was; false means no index was visited.
     */
    method ParallelFor(callback: nat, start: nat, end: nat, step: nat, schedule: seq<Move>)
      returns (ok: bool, ghost refused: bool)
      requires Valid() && start < Words.TWO64 && end < Words.TWO64 && step < Words.TWO64
      requires NoStopFlags() || step == 0 || start >= end || Split.Total(start, end, step) <= |pool.workers|
               || |pool.workers| == 0
      modifies this`pool, this`accepted
      ensures Valid() && |pool.workers| == |old(pool).workers| && pool.buffer == old(pool).buffer
      ensures step == 0 ==> !ok
      ensures step > 0 && (start >= end || |pool.workers| == 0 || Granted(schedule)) ==> ok
      ensures step > 0 ==> (ok <==> !refused)
      ensures step > 0 && start < end && |pool.workers| > 0 && Split.Total(start, end, step) > |pool.workers| ==>
                Answered(old(pool), schedule, pool, refused)
      ensures (step > 0 && start < end && |pool.workers| > 0 && Split.Total(start, end, step) > |pool.workers|
               && old(pool).spawned && schedule != [] && schedule[0] == Main(false)) ==> !ok
      ensures !ok ==> pool.history == old(pool).history && accepted == old(accepted)
      // the tasks that ran
      ensures ok ==>
                forall task: Task ::
                  multiset(Split.Flatten(pool.history))[task] == multiset(Split.Flatten(old(pool).history))[task]
                    + if task.Visit? && task.callback == callback && start <= task.index < end
                         && (task.index - start) % step == 0 then 1 else 0
      // and their order
      ensures ok ==> accepted == old(accepted) + Loop(callback, start, end, step)
      ensures ok ==>
                var visited := accepted[|old(accepted)|..];
                && (forall k :: 0 <= k < |visited| ==> visited[k].Visit? && visited[k].callback == callback)
                && (forall j, k :: 0 <= j < k < |visited| ==> visited[j].index < visited[k].index)
                && (if |visited| <= |pool.workers| || |pool.workers| == 0 then MainAlone(old(pool), pool, visited)
                    else InChunks(old(pool), pool, visited))
      ensures step == 0 || start >= end || |pool.workers| == 0 || Split.Total(start, end, step) <= |pool.workers| ==>
                pool.spawned == old(pool).spawned
      ensures old(NoStopFlags()) && (ok || pool.spawned) ==> NoStopFlags()
    {
      hide Answered, Inv, Attributed, Conserved, Ran, MainAlone, InChunks, Split.Total, Words.Pow2, Granted, Loop, NoStops;
      ok, refused := RunLoop(callback, start, end, step, schedule);
      if ok {
        LoopIs(callback, start, end, step);
        LoopCounts(callback, start, end, step, old(pool).history, pool.history);
        assert accepted[|old(accepted)|..] == Loop(callback, start, end, step);
      }
    }

    /** What the parallel for does, in terms of the list of its visits. */
    method RunLoop(callback: nat, start: nat, end: nat, step: nat, schedule: seq<Move>)
      returns (ok: bool, ghost refused: bool)
      requires Valid() && start < Words.TWO64 && end < Words.TWO64 && step < Words.TWO64
      requires NoStopFlags() || step == 0 || start >= end || Split.Total(start, end, step) <= |pool.workers|
               || |pool.workers| == 0
      modifies this`pool, this`accepted
      ensures Valid() && |pool.workers| == |old(pool).workers| && pool.buffer == old(pool).buffer
      ensures step == 0 ==> !ok
      ensures step > 0 && (start >= end || |pool.workers| == 0 || Granted(schedule)) ==> ok
      ensures step > 0 ==> (ok <==> !refused)
      ensures step > 0 && start < end && |pool.workers| > 0 && Split.Total(start, end, step) > |pool.workers| ==>
                Answered(old(pool), schedule, pool, refused)
      ensures (step > 0 && start < end && |pool.workers| > 0 && Split.Total(start, end, step) > |pool.workers|
               && old(pool).spawned && schedule != [] && schedule[0] == Main(false)) ==> !ok
      ensures !ok ==> pool.history == old(pool).history && accepted == old(accepted)
      ensures ok ==>
                var visited := Loop(callback, start, end, step);
                && Ran(old(pool).history, pool.history, visited)
                && accepted == old(accepted) + visited
                && (if |visited| <= |pool.workers| || |pool.workers| == 0 then MainAlone(old(pool), pool, visited)
                    else InChunks(old(pool), pool, visited))
      ensures step == 0 || start >= end || |pool.workers| == 0 || Split.Total(start, end, step) <= |pool.workers| ==>
                pool.spawned == old(pool).spawned
      ensures old(NoStopFlags()) && (ok || pool.spawned) ==> NoStopFlags()
    {
      InvFormed(pool);
      hide Answered, Inv, Attributed, Conserved, Ran, InChunks, Split.Iterations, Split.Total, Words.Pow2, Granted, NoStops, MainAlone;
      if step == 0 {
        return false, false;
      }
      if start >= end {
        NothingRan(pool.history);
        NothingAlone(pool);
        return true, false;
      }
      ok, refused := RunIterations(callback, start, end, step, schedule);
      if ok {
        ghost var visited := Loop(callback, start, end, step);
        MoreHasRun(old(pool).history, pool.history, staging, accepted, visited);
        accepted := accepted + visited;
      }
    }

    /** Few iterations, or no workers: main visits them all. Otherwise they are cut into chunks. */
    method RunIterations(callback: nat, start: nat, end: nat, step: nat, schedule: seq<Move>)
      returns (ok: bool, ghost refused: bool)
      requires Inv(pool) && Attributed(pool) && pool.main.Idle?
      requires start < end < Words.TWO64 && 1 <= step < Words.TWO64
      requires NoStopFlags() || Split.Total(start, end, step) <= |pool.workers| || |pool.workers| == 0
      modifies this`pool
      ensures Inv(pool) && Attributed(pool) && pool.main.Idle? && |pool.workers| == |old(pool).workers|
      ensures pool.buffer == old(pool).buffer
      ensures ok ==>
                var visited := Loop(callback, start, end, step);
                && |visited| == Split.Total(start, end, step)
                && Ran(old(pool).history, pool.history, visited)
                && (if |visited| <= |pool.workers| || |pool.workers| == 0 then MainAlone(old(pool), pool, visited)
                    else InChunks(old(pool), pool, visited))
      ensures (old(pool).spawned && schedule != [] && schedule[0] == Main(false)
               && |pool.workers| > 0 && Split.Total(start, end, step) > |pool.workers|) ==> !ok
      ensures !ok ==> pool.history == old(pool).history
      ensures |pool.workers| == 0 || Split.Total(start, end, step) <= |pool.workers| ==>
                pool.spawned == old(pool).spawned
      ensures old(NoStopFlags()) && (ok || pool.spawned) ==> NoStopFlags()
      ensures Granted(schedule) || |pool.workers| == 0 ==> ok
      ensures ok <==> !refused
      ensures |pool.workers| > 0 && Split.Total(start, end, step) > |pool.workers| ==>
                Answered(old(pool), schedule, pool, refused)
    {
      hide Answered, Inv, Attributed, Conserved, Ran, InChunks, MainAlone, Granted;
      hide Split.Slice, Split.Iterations, Split.Total, Words.Pow2;
      var total := CountIterations(start, end, step);
      if |pool.workers| == 0 || total <= |pool.workers| {
        var all := VisitAll(start, end, step, total);
        RunInline(Visits(callback, all), schedule);
        ok, refused := true, false;
      } else {
        ok, refused := ForChunks(callback, start, end, step, schedule);
      }
    }

    /** The parallel path of the for: one non-empty chunk per executor. */
    method ForChunks(callback: nat, start: nat, end: nat, step: nat, schedule: seq<Move>)
      returns (ok: bool, ghost refused: bool)
      requires Inv(pool) && Attributed(pool) && pool.main.Idle? && NoStopFlags()
      requires start < end < Words.TWO64 && 1 <= step < Words.TWO64
      requires 1 <= |pool.workers| < Split.Total(start, end, step)
      modifies this`pool
      ensures Inv(pool) && Attributed(pool) && pool.main.Idle? && |pool.workers| == |old(pool).workers|
      ensures pool.buffer == old(pool).buffer
      ensures ok ==>
                && Ran(old(pool).history, pool.history, Loop(callback, start, end, step))
                && InChunks(old(pool), pool, Loop(callback, start, end, step))
      ensures old(pool).spawned && schedule != [] && schedule[0] == Main(false) ==> !ok
      ensures !ok ==> pool.history == old(pool).history
      ensures ok || pool.spawned ==> NoStopFlags()
      ensures Granted(schedule) ==> ok
      ensures (ok <==> !refused) && Answered(old(pool), schedule, pool, refused)
    {
      InvFormed(pool);
      hide Played, Refused, Inv, Attributed, Conserved, Ran, Split.Slice, Split.Iterations, Split.Total, Words.Pow2, Granted, Loop;
      var jobs := CutChunks(callback, start, end, step, |pool.workers|);
      ghost var moves;
      ok, moves := RunCall(Call(For, jobs), schedule);
      refused := !ok;
      if ok {
        SameTasksRan(old(pool).history, pool.history, Split.Flatten(jobs), Loop(callback, start, end, step));
      }
    }

    /**
     * The calls that foreach_slot makes: for each executor the content of its slot, under the way
     * its tasks update it, and the executor's index.
     */
    method ForeachSlot<M>(slotIndex: nat, slotCount: nat, m: Reduction.Monoid<M>, f: Task -> M)
      returns (calls: seq<(M, nat)>)
      requires Valid()
      ensures slotIndex >= slotCount ==> calls == []
      ensures slotIndex < slotCount ==>
                && |calls| == |pool.workers| + 1
                && forall e :: 0 <= e < |calls| ==> calls[e] == (Reduction.Slot(m, f, pool.slots[e]), e)
    {
      calls := [];
      if slotIndex >= slotCount {
        return;
      }
      for i := 0 to |pool.workers| + 1
        invariant |calls| == i && forall e :: 0 <= e < i ==> calls[e] == (Reduction.Slot(m, f, pool.slots[e]), e)
      {
        calls := calls + [(Reduction.Slot(m, f, pool.slots[i]), i)];
      }
    }

    /** Destroy: the threads are stopped and joined, and no task that was handed over is lost. */
    method Destroy(schedule: seq<Move>)
      requires Valid()
      modifies this`pool
      ensures Inv(pool) && Attributed(pool) && pool.main.Destroyed?
      ensures |pool.workers| == |old(pool).workers| && pool.history == old(pool).history
      ensures pool.spawned ==> forall i: nat :: i < |pool.workers| ==> pool.workers[i].pc.Exited?
      ensures Conserved(pool.history, staging, accepted)
    {
      var end, moves := RunToEnd(pool, Shutdown, schedule);
      QuietWhenIdle(pool);
      StepInv(pool, Shutdown);
      StepAttributed(pool, Shutdown);
      PathAttributed(Step(pool, Shutdown), moves, end);
      StoppingPath(Step(pool, Shutdown), moves, end);
      QuietWhenIdle(end);
      pool := end;
    }

    /** A refused dispatch tried again: unless the threads were started half way, everything staged runs. */
    method DispatchWithRetry(first: seq<Move>, second: seq<Move>) returns (ok: bool)
      requires Valid() && NoStopFlags() && |staging| <= Words.TWO63 && Granted(second)
      modifies this`pool, this`staging, this`order
      ensures Valid() && |pool.workers| == |old(pool).workers|
      ensures ok ==> staging == [] && Ran(old(pool).history, pool.history, old(staging)) && NoStopFlags()
      ensures !ok ==> staging == old(staging) && pool.history == old(pool).history
      ensures ok <==> NoStopFlags()
      ensures !ok ==> !pool.spawned
    {
      hide Inv, Attributed, Conserved, Ran, InSlices, MainAlone, Words.Pow2, Split.Grown, Granted;
      ghost var refused;
      ok, refused := DispatchAndWait(first);
      if !ok && NoStopFlags() {
        ok, refused := DispatchAndWait(second);
      }
    }

    /** One command of a script: any at all, or after a start that failed half way one that main runs alone. */
    method Perform(command: Command) returns (ok: bool)
      requires Valid() && command.InWords() && |staging| + command.Stages() <= Words.TWO63
      requires NoStopFlags() || !command.UsesWorkers(|pool.workers|, |staging|)
      modifies this
      ensures Valid() && |pool.workers| == |old(pool).workers|
      ensures accepted == old(accepted) + command.Takes(ok)
      ensures |staging| <= |old(staging)| + command.Stages()
      ensures old(NoStopFlags() || !pool.spawned) ==> NoStopFlags() || !pool.spawned
    {
      hide Inv, Attributed, Conserved, Ran, InSlices, MainAlone, InChunks, Words.Pow2, Split.Grown, Granted, Loop;
      match command {
        case SubmitOne(task, pushed) => ok := Submit(task, pushed);
        case SubmitMany(tasks, room) => ok := SubmitBatch(tasks, room);
        case DispatchAll(schedule) =>
          ghost var refused;
          ok, refused := DispatchAndWait(schedule);
        case LoopOver(callback, start, end, step, schedule) =>
          ghost var refused;
          ok, refused := ParallelFor(callback, start, end, step, schedule);
      }
    }
  }

  // ----- whole lives

  /** What a caller can ask for, with what the outside world answers. */
  datatype Command =
    | SubmitOne(task: Task, pushed: bool)
    | SubmitMany(tasks: seq<Task>, room: nat)
    | DispatchAll(schedule: seq<Move>)
    | LoopOver(callback: nat, start: nat, end: nat, step: nat, schedule: seq<Move>)
  {
    predicate InWords() {
      LoopOver? ==> start < Words.TWO64 && end < Words.TWO64 && step < Words.TWO64
    }

    /** Whether it would hand work to the workers, given their number and the number of staged entries. */
    predicate UsesWorkers(threads: nat, staged: nat) {
      match this
      case DispatchAll(_) => threads > 0 && staged > 1
      case LoopOver(_, start, end, step, _) =>
        threads > 0 && step >= 1 && start < end && Split.Total(start, end, step) > threads
      case _ => false
    }

    /** The most it can add to the staging array. */
    function Stages(): nat {
      match this
      case SubmitOne(_, _) => 1
      case SubmitMany(tasks, _) => |tasks|
      case _ => 0
    }

    /** What it has taken on, given what it returned. */
    function Takes(ok: bool): seq<Task> {
      match this
      case SubmitOne(task, _) => if ok then [task] else []
      case SubmitMany(tasks, room) => tasks[..Split.Min(|tasks|, room)]
      case DispatchAll(_) => []
      case LoopOver(callback, start, end, step, _) => if ok && step >= 1 then Loop(callback, start, end, step) else []
    }
  }

  function AllTaken(script: seq<Command>, answers: seq<bool>): seq<Task>
    requires |script| == |answers|
  {
    if script == [] then []
    else
      var last := |script| - 1;
      AllTaken(script[..last], answers[..last]) + script[last].Takes(answers[last])
  }

  function AllStaged(script: seq<Command>): nat {
    if script == [] then 0 else AllStaged(script[..|script| - 1]) + script[|script| - 1].Stages()
  }

  lemma {:induction false} StagedGrows(script: seq<Command>, k: nat)
    requires k <= |script|
    ensures AllStaged(script[..k]) <= AllStaged(script)
    decreases |script|
  {
    if k < |script| {
      assert script[..|script| - 1][..k] == script[..k];
      StagedGrows(script[..|script| - 1], k);
    } else {
      assert script[..k] == script;
    }
  }

  /**
   * Commands one after the other, up to the end of the script, or to the first that would use the
   * workers although a start of the threads has failed half way.
   */
  method Play(d: Dispatcher, script: seq<Command>) returns (answers: seq<bool>)
    requires d.Valid() && d.NoStopFlags() && d.staging == [] && d.accepted == []
    requires AllStaged(script) <= Words.TWO63 && forall k :: 0 <= k < |script| ==> script[k].InWords()
    modifies d
    ensures d.Valid() && |d.pool.workers| == |old(d.pool).workers| && |answers| <= |script|
    ensures d.accepted == AllTaken(script[..|answers|], answers)
    ensures |answers| < |script| ==>
              !d.NoStopFlags() && !d.pool.spawned && script[|answers|].UsesWorkers(|d.pool.workers|, |d.staging|)
  {
    hide Inv, Attributed, Conserved, NoStops, Words.Pow2, Split.Total, Command.UsesWorkers, Command.InWords, Command.Takes;
    answers := [];
    var k := 0;
    assert script[..0] == [];
    while k < |script| && (d.NoStopFlags() || !script[k].UsesWorkers(|d.pool.workers|, |d.staging|))
      invariant d.Valid() && |d.pool.workers| == |old(d.pool).workers|
      invariant |answers| == k <= |script| && d.accepted == AllTaken(script[..k], answers)
      invariant |d.staging| <= AllStaged(script[..k])
      invariant d.NoStopFlags() || !d.pool.spawned
      decreases |script| - k
    {
      assert script[..k + 1][..k] == script[..k];
      StagedGrows(script, k + 1);
      var ok := d.Perform(script[k]);
      assert (answers + [ok])[..k] == answers;
      answers := answers + [ok];
      k := k + 1;
    }
  }

  /** Visiting the slots of every executor and adding up what they hold. */
  method VisitAndFold<M(!new)>(d: Dispatcher, m: Reduction.Monoid<M>, f: Task -> M) returns (total: M)
    requires d.Valid() && Reduction.Lawful(m)
    ensures total == Reduction.Combined(m, Reduction.Slots(m, f, d.pool.slots))
    ensures d.staging == [] ==> total == Reduction.Slot(m, f, d.accepted)
  {
    var calls := d.ForeachSlot(0, 1, m, f);
    var values := seq(|calls|, e requires 0 <= e < |calls| => calls[e].0);
    total := Reduction.FoldSlots(m, values);
    AttributedSizes(d.pool);
    assert values == Reduction.Slots(m, f, d.pool.slots);
    if d.staging == [] {
      ReductionOverAllWaves(m, f, d);
    }
  }

  /**
   * A whole life: create, any commands with any schedules and any refusals, a visit to the slots,
   * destroy. The script is cut short only where it would use the workers although a start of the
   * threads has failed half way. What was run and what is still staged is what was taken on, and
   * when nothing is staged the folded slots are the sequential fold over all of it.
   */
  method Life<M(!new)>(threadCount: nat, script: seq<Command>, farewell: seq<Move>, m: Reduction.Monoid<M>, f: Task -> M)
    returns (d: Dispatcher, answers: seq<bool>, total: M, ghost last: Pool)
    requires Reduction.Lawful(m) && AllStaged(script) <= Words.TWO63
    requires forall k :: 0 <= k < |script| ==> script[k].InWords()
    ensures fresh(d) && d.pool.main.Destroyed? && |d.pool.workers| == threadCount
    ensures d.pool.spawned ==> forall i: nat :: i < threadCount ==> d.pool.workers[i].pc.Exited?
    ensures |answers| <= |script|
    ensures |answers| < |script| ==>
              !NoStops(last) && !last.spawned && script[|answers|].UsesWorkers(threadCount, |d.staging|)
    ensures Conserved(d.pool.history, d.staging, AllTaken(script[..|answers|], answers))
    ensures d.staging == [] ==> total == Reduction.Slot(m, f, AllTaken(script[..|answers|], answers))
  {
    hide Inv, Attributed, Conserved, Words.Pow2, Reduction.Lawful, AllTaken, AllStaged;
    d := new Dispatcher(threadCount);
    answers := Play(d, script);
    last := d.pool;
    total := VisitAndFold(d, m, f);
    d.Destroy(farewell);
  }

  lemma AttributedSizes(s: Pool)
    requires Attributed(s)
    ensures |s.slots| == |s.workers| + 1 && s.slots == s.history
  {
    forall e: nat | e <= |s.workers| ensures s.slots[e] == s.history[e] {
      assert OwnsItsSlots(s, e);
    }
  }

  method CountIterations(start: nat, end: nat, step: nat) returns (total: nat)
    requires start < end < Words.TWO64 && 1 <= step < Words.TWO64
    ensures total == Split.Total(start, end, step)
  {
    total := 1 + (end - start - 1) / step;
  }

  /** The sequential path of the parallel for. */
  method VisitAll(start: nat, end: nat, step: nat, total: nat) returns (visited: seq<nat>)
    requires start < end < Words.TWO64 && 1 <= step < Words.TWO64 && total == Split.Total(start, end, step)
    ensures visited == Split.Iterations(start, step, 0, total)
  {
    TotalFits(start, end, step);
    visited := Split.RunChunk(start, total, step);
  }

  lemma TotalFits(start: nat, end: nat, step: nat)
    requires start < end < Words.TWO64 && 1 <= step < Words.TWO64
    ensures var total := 1 + (end - start - 1) / step;
            && total == Split.Total(start, end, step) && 1 <= total < Words.TWO64
            && Split.Iteration(start, step, total - 1) < Words.TWO64
  {
    Split.IterationFits(start, end, step, Split.Total(start, end, step) - 1);
  }

  /** What a stopping pool keeps: what has been committed, and at its end no thread is left. */
  ghost predicate TakenDown(s: Pool) {
    && s.Formed() && Final(s.main)
    && (s.main.Destroyed? && s.spawned ==> forall i: nat :: i < |s.workers| ==> s.workers[i].pc.Exited?)
  }

  lemma TakenDownStays(s: Pool, m: Move)
    requires Inv(s) && TakenDown(s) && Enabled(s, m) && InternalMove(m)
    ensures TakenDown(Step(s, m)) && Step(s, m).committed == s.committed
  {
    FinalStays(s, m);
    var s' := Step(s, m);
    if s'.main.Destroyed? && s'.spawned {
      forall i: nat | i < |s'.workers| ensures s'.workers[i].pc.Exited? {
        assert WorkerOk(ViewOf(s, i));
      }
    }
  }

  lemma {:induction false} StoppingPath(s: Pool, moves: seq<Move>, s': Pool)
    requires Inv(s) && TakenDown(s) && Internal(moves) && Path(s, moves, s')
    ensures TakenDown(s') && s'.committed == s.committed
    decreases |moves|
  {
    hide Inv, TakenDown, Step;
    if moves != [] {
      assert InternalMove(moves[0]) && Internal(moves[1..]);
      StepInv(s, moves[0]);
      TakenDownStays(s, moves[0]);
      StoppingPath(Step(s, moves[0]), moves[1..], s');
    }
  }

  /** One chunk, run by whoever has it. */
  method RunJob(callback: nat, chunk: Split.Chunk, ghost start: nat, ghost end: nat, ghost step: nat,
                ghost parts: nat, ghost i: nat)
    returns (job: seq<Task>)
    requires start < end < Words.TWO64 && 1 <= step < Words.TWO64
    requires i < parts <= Split.Total(start, end, step) && Split.IsChunk(chunk, start, end, step, parts, i)
    ensures job == Split.Slice(Loop(callback, start, end, step), parts, i) && job != []
  {
    ChunkRuns(start, end, step, parts, i);
    VisitsOfSlice(callback, Split.Iterations(start, step, 0, Split.Total(start, end, step)), parts, i);
    hide Split.Total, Split.Start, Split.Count, Split.Iteration, Split.Iterations, Split.Slice;
    var visited := Split.RunChunk(chunk.start, chunk.count, chunk.step);
    job := Visits(callback, visited);
  }

  /** The chunks of a parallel for as the workers and main run them. */
  method CutChunks(callback: nat, start: nat, end: nat, step: nat, threadCount: nat) returns (jobs: seq<seq<Task>>)
    requires start < end < Words.TWO64 && 1 <= step < Words.TWO64
    requires 1 <= threadCount < Split.Total(start, end, step)
    ensures |jobs| == threadCount + 1 && forall e: nat :: e <= threadCount ==> jobs[e] != []
    ensures var all := Loop(callback, start, end, step);
            forall e: nat :: e <= threadCount ==>
              jobs[e] == Split.Slice(all, threadCount + 1, if e < threadCount then e + 1 else 0)
    ensures multiset(Split.Flatten(jobs)) == multiset(Loop(callback, start, end, step))
  {
    ghost var all, parts := Loop(callback, start, end, step), threadCount + 1;
    var buffer := new Split.Chunk[threadCount](i => Split.Chunk(0, 0, 0));
    var mainCount := Split.PlanChunks(start, end, step, buffer);
    var chunks := buffer[..];
    OwnChunk(start, end, step, parts, mainCount);
    hide Split.Total, Split.Start, Split.Count, Split.Iteration, Split.Slice, Split.IsChunk, Loop;
    jobs := [];
    for i := 0 to threadCount
      invariant |jobs| == i
      invariant forall k: nat :: k < i ==> jobs[k] == Split.Slice(all, parts, k + 1) && jobs[k] != []
    {
      var job := RunJob(callback, chunks[i], start, end, step, parts, i + 1);
      jobs := jobs + [job];
    }
    var own := RunJob(callback, Split.Chunk(start, mainCount, step), start, end, step, parts, 0);
    jobs := jobs + [own];
    RotatedSlices(all, parts, jobs);
  }

  lemma OwnChunk(start: nat, end: nat, step: nat, parts: nat, count: nat)
    requires start < end && step >= 1 && parts >= 1 && count == Split.Count(Split.Total(start, end, step), parts, 0) >= 1
    ensures Split.IsChunk(Split.Chunk(start, count, step), start, end, step, parts, 0)
  {
    Split.StartNext(Split.Total(start, end, step), parts, 0);
  }

  lemma RotatedSlices<T>(all: seq<T>, parts: nat, jobs: seq<seq<T>>)
    requires parts >= 1 && |jobs| == parts
    requires forall e: nat :: e < parts ==> jobs[e] == Split.Slice(all, parts, if e < parts - 1 then e + 1 else 0)
    ensures multiset(Split.Flatten(jobs)) == multiset(all)
  {
    hide Split.Slice;
    var slices := seq(parts, i requires 0 <= i < parts => Split.Slice(all, parts, i));
    assert jobs == slices[1..] + [slices[0]];
    RotationKeepsAll(slices, jobs);
    Split.SlicesAreAll(all, parts);
  }

  lemma VisitsOfSlice(callback: nat, indices: seq<nat>, parts: nat, i: nat)
    requires parts >= 1 && i < parts
    ensures Visits(callback, Split.Slice(indices, parts, i)) == Split.Slice(Visits(callback, indices), parts, i)
  {
    Split.Balanced(|indices|, parts, i, i);
    hide Split.Start, Split.Count;
  }

  lemma ChunkRuns(start: nat, end: nat, step: nat, parts: nat, i: nat)
    requires start < end < Words.TWO64 && 1 <= step < Words.TWO64
    requires parts >= 1 && i < parts && Split.Total(start, end, step) >= parts
    ensures var total := Split.Total(start, end, step);
            var first := Split.Iteration(start, step, Split.Start(total, parts, i));
            var count := Split.Count(total, parts, i);
            && first < Words.TWO64 && 1 <= count < Words.TWO64
            && Split.Iteration(first, step, count - 1) < Words.TWO64
            && Split.Iterations(first, step, 0, count) == Split.Slice(Split.Iterations(start, step, 0, total), parts, i)
  {
    var total := Split.Total(start, end, step);
    var from, count := Split.Start(total, parts, i), Split.Count(total, parts, i);
    Split.Balanced(total, parts, i, i);
    Split.IterationFits(start, end, step, from);
    Split.IterationFits(start, end, step, from + count - 1);
    Split.IterationShift(start, step, from, count - 1);
    Split.ChunkIsSlice(start, end, step, parts, i);
  }

  /**
   * When nothing is staged, folding what the executors' own slots hold gives what one thread running
   * everything in order of acceptance would have got, whatever the schedules were.
   */
  lemma ReductionOverAllWaves<M(!new)>(m: Reduction.Monoid<M>, f: Task -> M, d: Dispatcher)
    requires d.Valid() && d.staging == [] && Reduction.Lawful(m)
    ensures Reduction.Combined(m, Reduction.Slots(m, f, d.pool.slots)) == Reduction.Slot(m, f, d.accepted)
  {
    AttributedSizes(d.pool);
    Reduction.ParallelEqualsSequential(m, f, d.pool.slots, d.accepted);
  }

  method CutSlices(items: seq<Task>, parts: nat) returns (jobs: seq<seq<Task>>)
    requires parts >= 1 && |items| < Words.TWO64
    ensures |jobs| == parts && forall e: nat :: e < parts ==> jobs[e] == Split.Slice(items, parts, e)
    ensures Split.Flatten(jobs) == items
  {
    var offsets, counts := new nat[parts], new nat[parts];
    Split.AssignSlices(|items|, offsets, counts);
    var starts, sizes := offsets[..], counts[..];
    jobs := [];
    for e := 0 to parts
      invariant |jobs| == e && forall k: nat :: k < e ==> jobs[k] == Split.Slice(items, parts, k)
    {
      Split.Balanced(|items|, parts, e, e);
      jobs := jobs + [items[starts[e]..starts[e] + sizes[e]]];
    }
    Split.SlicesAreAll(items, parts);
    assert jobs == seq(parts, i requires 0 <= i < parts => Split.Slice(items, parts, i));
  }
}
