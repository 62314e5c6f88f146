/** Which executor's slots a task updates: tls_worker and the private slots, for every run of the pool. */
module PoolSlots {
  import opened Options
  import opened PoolProtocol
  import opened PoolInvariant
  import opened PoolTheorems

  /** Thread `e` is between setting and clearing its tls_worker. */
  predicate InTask(s: Pool, e: nat)
    requires s.Formed() && e <= |s.workers|
  {
    if e < |s.workers| then s.workers[e].pc.Running? else s.main.RunOwn? && s.Job(e) != []
  }

  /** Executor `e` names itself exactly while it runs tasks, and its slots hold exactly the updates of what it ran. */
  predicate OwnsItsSlots(s: Pool, e: nat)
    requires s.Formed() && e <= |s.workers|
  {
    s.named[e] == (if InTask(s, e) then Some(e) else None) && s.slots[e] == s.history[e]
  }

  ghost predicate Attributed(s: Pool) {
    s.Formed() && forall e: nat :: e <= |s.workers| ==> OwnsItsSlots(s, e)
  }

  lemma InitialAttributed(s: Pool)
    requires Initial(s)
    ensures Attributed(s)
  {
  }

  lemma WorkAttributed(s: Pool, i: nat)
    requires Attributed(s) && WorkerEnabled(s, i)
    ensures Attributed(WorkerStep(s, i))
  {
    var s' := WorkerStep(s, i);
    assert OwnsItsSlots(s, i);
    forall e: nat | e <= |s'.workers| ensures OwnsItsSlots(s', e) {
      assert OwnsItsSlots(s, e);
    }
  }

  /** A thread that is about to be created runs nothing yet. */
  lemma StartedIsIdle(s: Pool, i: nat)
    requires Inv(s) && i < |s.workers|
    ensures s.main == Spawn(i) ==> !s.workers[i].pc.Running?
  {
    assert WorkerOk(ViewOf(s, i));
  }

  lemma MainAttributed(s: Pool, ok: bool)
    requires Inv(s) && Attributed(s) && MainEnabled(s)
    ensures Attributed(MainStep(s, ok))
  {
    hide Inv;
    var s' := MainStep(s, ok);
    assert OwnsItsSlots(s, |s.workers|);
    forall e: nat | e <= |s'.workers| ensures OwnsItsSlots(s', e) {
      assert OwnsItsSlots(s, e);
      if e < |s.workers| { StartedIsIdle(s, e); }
    }
  }

  /** No step breaks it. */
  lemma StepAttributed(s: Pool, m: Move)
    requires Inv(s) && Attributed(s) && Enabled(s, m)
    ensures Attributed(Step(s, m))
  {
    var s' := Step(s, m);
    match m
    case Work(i) => WorkAttributed(s, i);
    case Main(ok) => MainAttributed(s, ok);
    case _ =>
      forall e: nat | e <= |s'.workers| ensures OwnsItsSlots(s', e) {
        assert OwnsItsSlots(s, e);
      }
  }

  lemma {:induction false} PathAttributed(s: Pool, moves: seq<Move>, s': Pool)
    requires Inv(s) && Attributed(s) && Path(s, moves, s')
    ensures Attributed(s')
    decreases |moves|
  {
    hide Inv, Attributed;
    if moves != [] {
      StepInv(s, moves[0]);
      StepAttributed(s, moves[0]);
      PathAttributed(Step(s, moves[0]), moves[1..], s');
    }
  }

  /** In every run each executor's slots have received exactly the tasks it ran, in that order. */
  lemma {:induction false} RunAttributed(trace: seq<Pool>, k: nat)
    requires FullRun(trace) && k < |trace|
    ensures Attributed(trace[k])
  {
    hide Inv, Attributed;
    if k == 0 {
      InitialAttributed(trace[0]);
    } else {
      RunInv(trace, k - 1);
      RunAttributed(trace, k - 1);
      assert StepsAt(trace, k - 1);
      var m: Move :| Enabled(trace[k - 1], m) && trace[k] == Step(trace[k - 1], m);
      StepAttributed(trace[k - 1], m);
    }
  }

  /** Only the executor's own thread ever writes to its slots. */
  lemma OnlyItsOwnThread(s: Pool, m: Move, e: nat)
    requires Attributed(s) && Enabled(s, m) && e <= |s.workers|
    ensures |Step(s, m).slots| == |s.slots|
    ensures Step(s, m).slots[e] != s.slots[e] ==> if e < |s.workers| then m == Work(e) else m.Main?
    ensures Step(s, m).slots[e] != s.slots[e] ==> InTask(s, e) && s.named[e] == Some(e)
  {
    assert OwnsItsSlots(s, e);
    if m.Work? {
      assert OwnsItsSlots(s, m.i);
    }
    assert OwnsItsSlots(s, |s.workers|);
  }

  /** Threads inside tasks name different executors. */
  lemma NamesDiffer(s: Pool, a: nat, b: nat)
    requires Attributed(s) && a <= |s.workers| && b <= |s.workers| && a != b
    requires InTask(s, a) && InTask(s, b)
    ensures s.named[a].Some? && s.named[b].Some? && s.named[a] != s.named[b]
  {
    assert OwnsItsSlots(s, a) && OwnsItsSlots(s, b);
  }
}
