/** What the pool promises: an exactly-once barrier, no lost wakeups, exclusive buffers, and calls that finish. */
module PoolTheorems {
  import opened Options
  import opened PoolProtocol
  import opened PoolInvariant
  import Split

  // ----- quiet moments

  /** When main is between calls, every task handed out has finished and nothing is left behind. */
  lemma QuietWhenIdle(s: Pool)
    requires Inv(s) && (s.main.Idle? || s.main.Destroyed?)
    ensures s.history == s.committed
    ensures forall i: nat :: i < |s.workers| ==> !s.workers[i].ready && Resting(s.workers[i].pc)
  {
    forall i: nat | i < |s.workers|
      ensures s.history[i] == s.committed[i] && !s.workers[i].ready && Resting(s.workers[i].pc) {
      assert WorkerOk(ViewOf(s, i));
    }
    assert forall e :: 0 <= e < |s.history| ==> s.history[e] == s.committed[e];
  }

  /** Stopping the threads therefore never discards work: destroy begins with nothing handed over. */
  lemma DestroyDropsNothing(s: Pool, i: nat)
    requires Inv(s) && i < |s.workers|
    requires Stopping(s.main) || s.main.Destroyed?
    ensures !s.workers[i].ready && Resting(s.workers[i].pc) && s.history[i] == s.committed[i]
  {
    assert WorkerOk(ViewOf(s, i));
  }

  // ----- no lost wakeup

  lemma NoLostWakeup(s: Pool, i: nat)
    requires Inv(s) && i < |s.workers| && s.workers[i].owner.Nobody?
    ensures s.workers[i].pc.Asleep? ==> !s.workers[i].ready && !s.workers[i].stop
    ensures s.main == Waiting(i) ==> !s.workers[i].done
  {
    assert WorkerOk(ViewOf(s, i));
  }

  /** At most one thread is inside a worker's critical section. */
  lemma MutualExclusion(s: Pool, i: nat)
    requires Inv(s) && i < |s.workers|
    ensures !(Holds(s.main, i) && HoldsMutex(s.workers[i].pc))
  {
    assert WorkerOk(ViewOf(s, i));
  }

  // ----- buffers

  /** A worker reads its record and entries only while they hold the slice main handed over in this call. */
  lemma ReadsItsOwnSlice(s: Pool, i: nat)
    requires Inv(s) && i < |s.workers| && s.workers[i].pc.Running?
    ensures s.workers[i].pc.record == i && s.cells[i] == Some(s.Job(i))
    ensures Dispatched(s.main, s.call.mode, i) && !Awaited(s.main, i)
  {
    assert WorkerOk(ViewOf(s, i));
  }

  /** Main writes, reuses or frees a worker's record only outside the window from dispatch to done. */
  lemma MainTouchesOnlyItsOwnBuffers(s: Pool, ok: bool, i: nat)
    requires Inv(s) && MainEnabled(s) && i < |s.workers| && TouchesRecord(s, ok, i)
    ensures !s.workers[i].ready && s.workers[i].work.None? && Resting(s.workers[i].pc)
  {
    assert WorkerOk(ViewOf(s, i));
  }

  /** The steps of main that write worker i's record, or free or replace what it points to. */
  predicate TouchesRecord(s: Pool, ok: bool, i: nat) {
    || s.main == Write(i)
    || (s.main.Allocate? && ok && NeedsMemory(s))
    || (s.main.Finish? && s.call.mode.For?)
  }

  /** No other step changes it. */
  lemma OtherStepsLeaveRecords(s: Pool, m: Move, i: nat)
    requires Inv(s) && Enabled(s, m) && i < |s.workers|
    requires m.Main? ==> !TouchesRecord(s, m.ok, i)
    ensures |Step(s, m).cells| == |s.cells| && Step(s, m).cells[i] == s.cells[i]
  {
    hide WorkerOk;
  }

  // ----- exactly once, then the barrier

  /** Main has what it needs: nothing can make the call fail any more. */
  predicate PastAllocation(main: MainPc) {
    InCall(main) && !main.Spawn? && !main.Allocate?
  }

  /** The dispatch buffer once the call has got its memory. */
  function BufferFor(s: Pool): nat {
    if s.call.mode.Staged? then Split.Grown(s.buffer, |Split.Flatten(s.call.jobs)|) else s.buffer
  }

  /** Reading off one internal step what a call has committed so far. */
  ghost predicate InternalMove(m: Move) {
    !m.Begin? && !m.Shutdown?
  }

  lemma StepCommits(s: Pool, m: Move)
    requires Inv(s) && Enabled(s, m) && InternalMove(m)
    ensures var s' := Step(s, m);
            && s'.call == s.call && |s'.workers| == |s.workers|
            && (!s.main.Finish? || !m.Main? ==> s'.committed == s.committed)
            && (s.main.Finish? && m.Main? ==>
                  s'.main.Idle? && s'.result
                  && forall e :: 0 <= e <= |s.workers| ==> s'.committed[e] == s.committed[e] + s.Job(e))
            && (s'.main.Idle? && !s.main.Idle? && !s.main.Finish? ==> !s'.result)
            && (!m.Main? ==> (s'.main.Idle? <==> s.main.Idle?))
            && (s.main.Idle? ==> s'.main.Idle? && s'.result == s.result)
            && (PastAllocation(s.main) ==> PastAllocation(s'.main) || (s'.main.Idle? && s'.result))
            && s'.buffer == (if !PastAllocation(s.main) && PastAllocation(s'.main) then BufferFor(s) else s.buffer)
            && (s.main.Idle? || Stopping(s.main) ==> !PastAllocation(s'.main))
            && (s.main.Idle? || PastAllocation(s.main) ==> s'.spawned == s.spawned)
  {
    hide Inv;
  }

  /** A sequence of moves from one state to another. */
  ghost predicate Path(s: Pool, moves: seq<Move>, s': Pool)
    decreases |moves|
  {
    if moves == [] then s' == s
    else Enabled(s, moves[0]) && Path(Step(s, moves[0]), moves[1..], s')
  }

  lemma {:induction false} PathAppend(s: Pool, moves: seq<Move>, s': Pool, m: Move)
    requires Path(s, moves, s') && Enabled(s', m)
    ensures Path(s, moves + [m], Step(s', m))
    decreases |moves|
  {
    if moves == [] {
      assert Path(Step(s, m), [m][1..], Step(s, m));
    } else {
      PathAppend(Step(s, moves[0]), moves[1..], s', m);
      assert (moves + [m])[1..] == moves[1..] + [m];
    }
  }

  ghost predicate Internal(moves: seq<Move>) {
    forall k :: 0 <= k < |moves| ==> InternalMove(moves[k])
  }

  lemma {:induction false} PathInv(s: Pool, moves: seq<Move>, s': Pool)
    requires Inv(s) && Path(s, moves, s')
    ensures Inv(s')
    decreases |moves|
  {
    hide Inv;
    if moves != [] {
      StepInv(s, moves[0]);
      PathInv(Step(s, moves[0]), moves[1..], s');
    }
  }

  /** What has been committed when main is back: the whole call, or nothing. */
  ghost predicate Outcome(s: Pool, s': Pool) {
    && |s'.workers| == |s.workers| && |s'.committed| == |s.committed| == |s.workers| + 1
    && (if s'.result then forall e :: 0 <= e <= |s.workers| ==> s'.committed[e] == s.committed[e] + s.Job(e)
        else s'.committed == s.committed)
    && (PastAllocation(s.main) ==> s'.result && s'.spawned == s.spawned)
    && s'.buffer == (if s'.result && !PastAllocation(s.main) then BufferFor(s) else s.buffer)
  }

  lemma {:induction false} IdlePath(s: Pool, moves: seq<Move>, s': Pool)
    requires Inv(s) && s.main.Idle? && Internal(moves) && Path(s, moves, s')
    ensures Inv(s') && s'.main.Idle? && s'.committed == s.committed && s'.result == s.result
        && |s'.workers| == |s.workers|
    ensures s'.buffer == s.buffer && s'.spawned == s.spawned
    decreases |moves|
  {
    hide Inv, Step;
    if moves != [] {
      assert InternalMove(moves[0]);
      StepInv(s, moves[0]);
      StepCommits(s, moves[0]);
      assert Internal(moves[1..]);
      IdlePath(Step(s, moves[0]), moves[1..], s');
    }
  }

  lemma {:induction false} CallPath(s: Pool, moves: seq<Move>, s': Pool)
    requires Inv(s) && (InCall(s.main) || Stopping(s.main))
    requires Internal(moves) && Path(s, moves, s') && s'.main.Idle?
    ensures Inv(s') && Outcome(s, s')
    decreases |moves|
  {
    hide Inv, Step;
    var m, t := moves[0], Step(s, moves[0]);
    assert InternalMove(m) && Internal(moves[1..]);
    StepInv(s, m);
    StepCommits(s, m);
    InvFormed(s);
    InvFormed(t);
    if t.main.Idle? {
      IdlePath(t, moves[1..], s');
      InvFormed(s');
    } else if t.main.Destroyed? {
      DestroyedPath(t, moves[1..], s');
      assert false;
    } else {
      CallPath(t, moves[1..], s');
    }
  }

  lemma InvFormed(s: Pool)
    requires Inv(s)
    ensures s.Formed()
  {
  }

  lemma {:induction false} DestroyedPath(s: Pool, moves: seq<Move>, s': Pool)
    requires Inv(s) && s.main.Destroyed? && Internal(moves) && Path(s, moves, s')
    ensures s'.main.Destroyed?
    decreases |moves|
  {
    hide Inv;
    if moves != [] {
      assert InternalMove(moves[0]) && Internal(moves[1..]);
      StepInv(s, moves[0]);
      DestroyedPath(Step(s, moves[0]), moves[1..], s');
    }
  }

  /**
   * The barrier: when a call returns true, every executor has run exactly its own slice, in order,
   * on top of what it had run before, and no task is unfinished; when it returns false, nothing ran.
   */
  lemma Barrier(s: Pool, c: Call, moves: seq<Move>, s': Pool)
    requires Inv(s) && Enabled(s, Begin(c)) && Internal(moves)
    requires Path(Step(s, Begin(c)), moves, s') && s'.main.Idle?
    ensures |s'.history| == |s.history| == |c.jobs|
    ensures s'.result ==> forall e :: 0 <= e < |c.jobs| ==> s'.history[e] == s.history[e] + c.jobs[e]
    ensures !s'.result ==> s'.history == s.history
    ensures c.mode.Inline? ==> s'.spawned == s.spawned
    ensures s'.buffer == if s'.result && c.mode.Staged? then Split.Grown(s.buffer, |Split.Flatten(c.jobs)|) else s.buffer
    ensures forall i: nat :: i < |s'.workers| ==> !s'.workers[i].ready && Resting(s'.workers[i].pc)
  {
    QuietWhenIdle(s);
    StepInv(s, Begin(c));
    CallPath(Step(s, Begin(c)), moves, s');
    QuietWhenIdle(s');
  }

  // ----- what makes a call fail

  /** Main is asking for something that the outside world may refuse: a thread, or memory that it needs. */
  ghost predicate AsksOutside(s: Pool) {
    || (s.main.Spawn? && s.main.i < |s.workers|)
    || (s.main.Allocate? && (s.call.mode.For? || s.buffer < |Split.Flatten(s.call.jobs)|))
  }

  /** Somewhere along these moves such a request is refused. */
  ghost predicate Refused(s: Pool, moves: seq<Move>)
    decreases |moves|
  {
    && moves != [] && Enabled(s, moves[0])
    && ((moves[0] == Main(false) && AsksOutside(s)) || Refused(Step(s, moves[0]), moves[1..]))
  }

  /** A refusal takes main out of the call at once; anything else keeps it in, or ends it with true. */
  lemma RefusalTurns(s: Pool, m: Move)
    requires Inv(s) && InCall(s.main) && Enabled(s, m) && InternalMove(m)
    ensures var s' := Step(s, m);
            if m == Main(false) && AsksOutside(s) then Failing(s')
            else InCall(s'.main) || (s'.main.Idle? && s'.result)
  {
    hide WorkerOk;
  }

  /** Rolling back, or back with false. */
  ghost predicate Failing(s: Pool) {
    (Stopping(s.main) && !s.main.final) || (s.main.Idle? && !s.result)
  }

  lemma FailingStays(s: Pool, m: Move)
    requires Failing(s) && Enabled(s, m) && InternalMove(m)
    ensures Failing(Step(s, m))
  {
  }

  lemma {:induction false} FailingPath(s: Pool, moves: seq<Move>, s': Pool)
    requires Failing(s) && Internal(moves) && Path(s, moves, s')
    ensures Failing(s')
    decreases |moves|
  {
    hide Failing, Step;
    if moves != [] {
      assert InternalMove(moves[0]) && Internal(moves[1..]);
      FailingStays(s, moves[0]);
      FailingPath(Step(s, moves[0]), moves[1..], s');
    }
  }

  lemma IdleStays(s: Pool, m: Move)
    requires s.main.Idle? && Enabled(s, m) && InternalMove(m)
    ensures Step(s, m).main.Idle? && Step(s, m).result == s.result
  {
  }

  /** Between calls nothing is asked for. */
  lemma {:induction false} IdleIsNotRefused(s: Pool, moves: seq<Move>, s': Pool)
    requires s.main.Idle? && Internal(moves) && Path(s, moves, s')
    ensures !Refused(s, moves) && s'.main.Idle? && s'.result == s.result
    decreases |moves|
  {
    hide Step;
    if moves != [] {
      assert InternalMove(moves[0]) && Internal(moves[1..]);
      IdleStays(s, moves[0]);
      IdleIsNotRefused(Step(s, moves[0]), moves[1..], s');
    }
  }

  lemma {:induction false} ResultOfPath(s: Pool, moves: seq<Move>, s': Pool)
    requires Inv(s) && InCall(s.main) && Internal(moves) && Path(s, moves, s') && s'.main.Idle?
    ensures s'.result <==> !Refused(s, moves)
    decreases |moves|
  {
    hide Inv, Step, AsksOutside;
    assert InternalMove(moves[0]) && Internal(moves[1..]);
    var t := Step(s, moves[0]);
    StepInv(s, moves[0]);
    RefusalTurns(s, moves[0]);
    if moves[0] == Main(false) && AsksOutside(s) {
      FailingPath(t, moves[1..], s');
    } else if t.main.Idle? {
      IdleIsNotRefused(t, moves[1..], s');
    } else {
      ResultOfPath(t, moves[1..], s');
    }
  }

  /** A call returns false exactly when a thread, or memory that it needs, was refused on the way. */
  lemma CallFailsExactly(s: Pool, c: Call, moves: seq<Move>, s': Pool)
    requires Inv(s) && Enabled(s, Begin(c)) && Internal(moves)
    requires Path(Step(s, Begin(c)), moves, s') && s'.main.Idle?
    ensures s'.result <==> !Refused(Step(s, Begin(c)), moves)
  {
    StepInv(s, Begin(c));
    ResultOfPath(Step(s, Begin(c)), moves, s');
  }

  /** The call will not ask for anything any more. */
  ghost predicate Supplied(s: Pool) {
    || PastAllocation(s.main) || s.main.Idle?
    || (s.main.Allocate? && s.call.mode.Staged? && |Split.Flatten(s.call.jobs)| <= s.buffer)
  }

  lemma SuppliedStays(s: Pool, m: Move)
    requires Inv(s) && Supplied(s) && Enabled(s, m) && InternalMove(m)
    ensures Supplied(Step(s, m)) && !AsksOutside(s)
  {
    hide WorkerOk;
  }

  lemma {:induction false} SuppliedPath(s: Pool, moves: seq<Move>, s': Pool)
    requires Inv(s) && Supplied(s) && Internal(moves) && Path(s, moves, s')
    ensures !Refused(s, moves)
    decreases |moves|
  {
    hide Inv, Supplied, Step;
    if moves != [] {
      assert InternalMove(moves[0]) && Internal(moves[1..]);
      StepInv(s, moves[0]);
      SuppliedStays(s, moves[0]);
      SuppliedPath(Step(s, moves[0]), moves[1..], s');
    }
  }

  /**
   * With the threads up and room in the buffer, or nothing for the workers to do, a call that
   * returns returns true, whatever is refused under its schedule.
   */
  lemma SuppliedCallSucceeds(s: Pool, c: Call, moves: seq<Move>, s': Pool)
    requires Inv(s) && Enabled(s, Begin(c)) && Internal(moves)
    requires c.mode.Inline? || (s.spawned && c.mode.Staged? && |Split.Flatten(c.jobs)| <= s.buffer)
    requires Path(Step(s, Begin(c)), moves, s') && s'.main.Idle?
    ensures s'.result
  {
    StepInv(s, Begin(c));
    SuppliedPath(Step(s, Begin(c)), moves, s');
    CallFailsExactly(s, c, moves, s');
  }

  /** With the threads up, the first step of a call that needs memory is the request, and a refusal ends it. */
  lemma RefusedMemoryReturnsFalse(s: Pool, c: Call)
    requires Inv(s) && s.spawned && Enabled(s, Begin(c)) && !c.mode.Inline?
    requires c.mode.For? || s.buffer < |Split.Flatten(c.jobs)|
    ensures Enabled(Step(s, Begin(c)), Main(false))
    ensures var s' := Step(Step(s, Begin(c)), Main(false));
            s'.main.Idle? && !s'.result && s'.history == s.history && s'.buffer == s.buffer
  {
    hide WorkerOk;
  }
}
