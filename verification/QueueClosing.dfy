/** What closing the queue guarantees, and exactly when it does not. */
module QueueClosing {
  import opened Options
  import opened QueueProtocol
  import opened QueueInvariant
  import opened QueueTheorems

  // ----- draining a closed queue

  ghost predicate Sealed(s: State) {
    s.closed && forall t :: 0 <= t < |s.threads| ==> !s.threads[t].Pushing()
  }

  /** Once closed with no push in flight, the queue accepts nothing more. */
  lemma SealedStays(s: State, s': State)
    requires Sealed(s) && Next(s, s')
    ensures Sealed(s') && s'.pushed == s.pushed && s'.enqueuePosition == s.enqueuePosition
  {
    var t := NextFramed(s, s');
    assert !s.threads[t].Pushing();
  }

  lemma {:induction false} SealedRun(trace: seq<State>, i: nat, j: nat)
    requires Run(trace) && i <= j < |trace| && Sealed(trace[i])
    ensures Sealed(trace[j]) && trace[j].pushed == trace[i].pushed
    ensures trace[j].enqueuePosition == trace[i].enqueuePosition
  {
    if i < j {
      SealedRun(trace, i, j - 1);
      assert StepsAt(trace, j - 1);
      SealedStays(trace[j - 1], trace[j]);
    }
  }

  /** What the pops have handed out, in ticket order. */
  ghost function Popped(s: State): seq<Item>
    requires Inv(s) && s.readers == map[]
  {
    seq(s.dequeuePosition, u requires 0 <= u < s.dequeuePosition => s.delivered[u])
  }

  /**
   * After a close with no push in flight, a pop that begins later and returns false proves that
   * every pushed ticket has been claimed; once all calls have returned, the popped items are the
   * pushed items.
   */
  lemma DrainAfterClose(trace: seq<State>, i: nat, b: nat, r: nat, t: nat, n: nat)
    requires FullRun(trace) && trace[0].Capacity() >= 2 && i <= b <= r <= n < |trace| && Sealed(trace[i])
    requires OneCall(trace, b, r, t) && trace[b].threads[t].PopLoadPosition?
    requires trace[r].threads[t].PopReturned? && trace[r].threads[t].ticket.None?
    ensures Inv(trace[n]) && trace[n].dequeuePosition == trace[n].enqueuePosition == trace[i].enqueuePosition
    ensures (forall j :: 0 <= j < |trace[n].threads| ==> trace[n].threads[j].Resting()) ==>
              trace[n].readers == map[] && Popped(trace[n]) == trace[n].pushed == trace[i].pushed
  {
    var k := RefusedPopHadReason(trace, b, r, t);
    RunInv(trace, k);
    RunInv(trace, n);
    SealedRun(trace, i, k);
    SealedRun(trace, k, n);
    PositionsGrow(trace, k, n);
    var s := trace[k];
    if s.dequeuePosition in s.writers {
      assert WriterOk(s, s.dequeuePosition);
      assert s.threads[s.writers[s.dequeuePosition]].Pushing();
    }
    if forall j :: 0 <= j < |trace[n].threads| ==> trace[n].threads[j].Resting() {
      NobodyCopies(trace[n]);
      assert Popped(trace[n]) == trace[n].pushed;
    }
  }

  /** The empty queue, closed by thread 1, which then pops in vain, while thread 0 is past its closed test. */
  lemma CloseDuringPush(item: Item) returns (s: State)
    requires |item| == 1
    ensures Reachable(s) && s.Formed() && s.elementSize == 1 && s.closed && s.sequence == [0, 1]
    ensures s.enqueuePosition == s.dequeuePosition == 0 && s.pushed == []
    ensures s.threads == [PushLoadPosition(item, 0, 0), PopReturned(None, [])]
  {
    hide Reachable;
    var start := State(1, 0, 0, false, [0, 1], [item, item], [Idle, Idle], [], map[], map[], map[]);
    ReachableStart(start);
    ReachableStep(start, 0, BeginPush(item));
    var a := start.(threads := [PushStart(item), Idle]);
    ReachableStep(a, 0, Advance(false));
    var b := start.(threads := [PushLoadPosition(item, 0, 0), Idle]);
    ReachableStep(b, 1, Close);
    s := RefusedPop(b.(closed := true));
  }

  lemma RefusedPop(b: State) returns (s: State)
    requires Reachable(b) && b.Formed() && |b.threads| == 2 && b.threads[1] == Idle
    requires b.sequence == [0, 1] && b.dequeuePosition == 0
    ensures Reachable(s) && s == b.At(1, PopReturned(None, []))
  {
    hide Reachable;
    ReachableStep(b, 1, BeginPop);
    var c := b.At(1, PopLoadPosition(0, 0));
    ReachableStep(c, 1, Advance(false));
    var d := c.At(1, PopLoadSequence(0, 0, 0));
    ReachableStep(d, 1, Advance(false));
    var e := d.At(1, PopDecide(0, 0, 0, 0));
    ReachableStep(e, 1, Advance(false));
    s := e.At(1, PopReturned(None, []));
    assert s.threads == b.threads[1 := PopReturned(None, [])];
  }

  /** Without the seal the promise fails: the queue is closed and a pop was refused, yet a push still gets in. */
  lemma UnsealedCloseLeaks(item: Item) returns (s: State)
    requires |item| == 1
    ensures Reachable(s) && s.Capacity() == 2 && s.closed && !Sealed(s)
    ensures |s.threads| == 2 && s.threads[1] == PopReturned(None, []) && s.enqueuePosition == s.dequeuePosition
    ensures Alone(s, 0, 3).pushed == s.pushed + [item]
  {
    s := CloseDuringPush(item);
    assert s.threads[0].Pushing();
    var a := s.At(0, PushLoadSequence(item, 0, 0, 0));
    assert Step(s, 0, Advance(false)) == a;
    var b := s.At(0, PushDecide(item, 0, 0, 0, 0));
    assert Step(a, 0, Advance(false)) == b;
    var c := PushDecided(b, 0, false);
    assert Step(b, 0, Advance(false)) == c;
    assert Alone(c, 0, 0) == c;
    assert Alone(b, 0, 1) == Alone(c, 0, 0);
    assert Alone(a, 0, 2) == Alone(b, 0, 1);
  }

  /** A push that starts on a closed queue is refused by its first step. */
  lemma ClosedRefusesPush(s: State, t: nat, spurious: bool)
    requires Inv(s) && s.closed && t < |s.threads| && s.threads[t].PushStart?
    ensures Enabled(s, t, Advance(spurious))
    ensures Step(s, t, Advance(spurious)) == s.At(t, PushReturned(None))
  {
    AlwaysEnabled(s, t, spurious);
  }

  // ----- exactly when a closed queue still takes a push

  /** Past the closed test and not turned away: this push may still be accepted. */
  predicate Undecided(thread: Thread) {
    thread.PushLoadPosition? || thread.PushLoadSequence? || (thread.PushDecide? && thread.loaded >= thread.position)
  }

  ghost predicate NobodyUndecided(s: State) {
    forall t :: 0 <= t < |s.threads| ==> !Undecided(s.threads[t])
  }

  /** Nothing gets in: nobody is undecided, or the only thread there is faces a queue without room. */
  ghost predicate Barred(s: State) {
    Inv(s) && s.closed && (NobodyUndecided(s) || (|s.threads| == 1 && !Room(s)))
  }

  lemma CopyStaysDecided(s: State, t: nat)
    requires Enabled(s, t, Advance(false)) && s.threads[t].Copying()
    ensures var s' := Step(s, t, Advance(false)); t < |s'.threads| && !Undecided(s'.threads[t])
  {
  }

  lemma OwnStepBarred(s: State, t: nat, m: Move)
    requires Inv(s) && s.closed && Enabled(s, t, m) && !Undecided(s.threads[t])
    ensures var s' := Step(s, t, m);
            t < |s'.threads| && s'.closed && s'.pushed == s.pushed && !Undecided(s'.threads[t])
  {
    StepFramed(s, t, m);
    hide Inv;
    if s.threads[t].Copying() {
      CopyStaysDecided(s, t);
    } else if s.threads[t].PushDecide? {
      assert Step(s, t, m) == s.At(t, PushReturned(None));
    } else {
      hide Step;
    }
  }

  lemma LoneStepBarred(s: State, m: Move)
    requires Inv(s) && s.closed && |s.threads| == 1 && Enabled(s, 0, m) && Undecided(s.threads[0]) && !Room(s)
    ensures var s' := Step(s, 0, m);
            |s'.threads| == 1 && s'.closed && s'.pushed == s.pushed && !Room(s')
  {
    LoadedStillCurrent(s, 0);
    NextPushSlot(s);
  }

  lemma BarredMove(s: State, t: nat, m: Move)
    requires Barred(s) && Enabled(s, t, m) && t < |s.threads|
    ensures Barred(Step(s, t, m)) && Step(s, t, m).pushed == s.pushed
  {
    hide Inv, Step, Room, Enabled, Undecided;
    StepInv(s, t, m);
    StepFramed(s, t, m);
    if Undecided(s.threads[t]) {
      LoneStepBarred(s, m);
    } else {
      OwnStepBarred(s, t, m);
      DecidedTogether(s, Step(s, t, m), t);
    }
  }

  lemma EnabledInRange(s: State, t: nat, m: Move)
    requires Enabled(s, t, m)
    ensures t < |s.threads|
  {
  }

  lemma BarredStep(s: State, s': State)
    requires Barred(s) && Next(s, s')
    ensures Barred(s') && s'.pushed == s.pushed
  {
    hide Barred, Step, Enabled;
    var t: nat, m: Move :| Enabled(s, t, m) && s' == Step(s, t, m);
    EnabledInRange(s, t, m);
    BarredMove(s, t, m);
  }

  lemma DecidedTogether(s: State, s': State, t: nat)
    requires t < |s.threads| && Framed(s, s', t) && !Undecided(s'.threads[t])
    ensures NobodyUndecided(s) ==> NobodyUndecided(s')
  {
    hide Undecided;
    if NobodyUndecided(s) {
      forall i | 0 <= i < |s'.threads| ensures !Undecided(s'.threads[i]) {
        if i != t { assert s'.threads[i] == s.threads[i]; }
      }
    }
  }

  lemma {:induction false} BarredRun(trace: seq<State>, k: nat)
    requires Run(trace) && k < |trace| && Barred(trace[0])
    ensures Barred(trace[k]) && trace[k].pushed == trace[0].pushed
  {
    hide Barred, Next;
    if k > 0 {
      BarredRun(trace, k - 1);
      assert StepsAt(trace, k - 1);
      BarredStep(trace[k - 1], trace[k]);
    }
  }

  // ----- runs of one thread by itself

  /** What thread `t` running by itself leaves alone. */
  lemma {:induction false} AloneKeeps(s: State, t: nat, n: nat)
    requires Inv(s) && t < |s.threads|
    ensures var s' := Alone(s, t, n);
            && Inv(s') && Follows(s, s') && |s'.threads| == |s.threads| && s'.Capacity() == s.Capacity()
            && s'.elementSize == s.elementSize && s.dequeuePosition <= s'.dequeuePosition && s.pushed <= s'.pushed
            && (forall j :: 0 <= j < |s.threads| && j != t ==> s'.threads[j] == s.threads[j])
    decreases n
  {
    hide Inv, Follows, Step;
    FollowsSelf(s);
    if n > 0 && Enabled(s, t, Advance(false)) {
      var m := Step(s, t, Advance(false));
      StepInv(s, t, Advance(false));
      StepFramed(s, t, Advance(false));
      FollowsStep(s, s, t, Advance(false));
      AloneKeeps(m, t, n - 1);
      FollowsChain(s, m, Alone(m, t, n - 1));
    }
  }

  /** The rest of a push that has claimed its ticket: publishing is all that it does to the shared state. */
  lemma {:induction false} CopyInEnds(s: State, t: nat) returns (s': State)
    requires Inv(s) && t < |s.threads| && s.threads[t].PushCopy?
    ensures Inv(s') && Follows(s, s') && s'.threads == s.threads[t := PushReturned(Some(s.threads[t].position))]
    ensures s'.writers == s.writers - {s.threads[t].position} && s'.readers == s.readers && s'.pushed == s.pushed
    ensures s'.enqueuePosition == s.enqueuePosition && s'.dequeuePosition == s.dequeuePosition
    ensures s'.Capacity() == s.Capacity()
    decreases s.elementSize - s.threads[t].copied
  {
    assert ThreadOk(s, t);
    AlwaysEnabled(s, t, false);
    StepInv(s, t, Advance(false));
    FollowsSelf(s);
    FollowsStep(s, s, t, Advance(false));
    hide Inv, Follows;
    if s.threads[t].copied < s.elementSize {
      var m := ByteIn(s, t);
      s' := CopyInEnds(m, t);
      FollowsChain(s, m, s');
    } else {
      s' := Publish(s, t);
    }
  }

  /** The rest of a pop that has claimed its ticket: releasing is all that it does to the shared state. */
  lemma {:induction false} CopyOutEnds(s: State, t: nat) returns (s': State)
    requires Inv(s) && t < |s.threads| && s.threads[t].PopCopy?
    ensures Inv(s') && Follows(s, s') && |s'.threads| == |s.threads|
    ensures forall j :: 0 <= j < |s.threads| && j != t ==> s'.threads[j] == s.threads[j]
    ensures s'.readers == s.readers - {s.threads[t].position} && s'.pushed == s.pushed
    ensures s'.enqueuePosition == s.enqueuePosition && s'.dequeuePosition == s.dequeuePosition
    ensures s'.Capacity() == s.Capacity()
    decreases s.elementSize - |s.threads[t].out|
  {
    assert ThreadOk(s, t);
    AlwaysEnabled(s, t, false);
    StepInv(s, t, Advance(false));
    FollowsSelf(s);
    FollowsStep(s, s, t, Advance(false));
    hide Inv, Follows;
    if |s.threads[t].out| < s.elementSize {
      var m := ByteOut(s, t);
      s' := CopyOutEnds(m, t);
      FollowsChain(s, m, s');
    } else {
      s' := Release(s, t);
    }
  }

  /** A thread between calls pops a ready ticket and hands its slot back. */
  lemma PopByItself(s: State, t: nat) returns (s': State)
    requires Inv(s) && t < |s.threads| && s.threads[t].Resting() && Ready(s)
    ensures Inv(s') && Follows(s, s') && |s'.threads| == |s.threads|
    ensures forall j :: 0 <= j < |s.threads| && j != t ==> s'.threads[j] == s.threads[j]
    ensures s'.pushed == s.pushed && s'.enqueuePosition == s.enqueuePosition && s'.Capacity() == s.Capacity()
    ensures s'.dequeuePosition == s.dequeuePosition + 1 && s.dequeuePosition !in s'.readers
  {
    var claimed := ClaimByItself(s, t);
    s' := CopyOutEnds(claimed, t);
    FollowsChain(s, claimed, s');
  }

  lemma Continue(start: State, s: State, t: nat, m: Move)
    requires Inv(s) && Follows(start, s) && Enabled(s, t, m)
    ensures Inv(Step(s, t, m)) && Follows(start, Step(s, t, m))
  {
    StepInv(s, t, m);
    FollowsStep(start, s, t, m);
  }

  lemma ClaimByItself(s: State, t: nat) returns (s': State)
    requires Inv(s) && t < |s.threads| && s.threads[t].Resting() && Ready(s)
    ensures Inv(s') && Follows(s, s')
    ensures s' == s.(dequeuePosition := s.dequeuePosition + 1, readers := s.readers[s.dequeuePosition := t],
                     threads := s.threads[t := PopCopy(s.dequeuePosition, [])])
  {
    var d := s.dequeuePosition;
    var c := ReachDecision(s, t);
    hide Inv, Follows;
    Continue(s, c, t, Advance(false));
    s' := PopDecided(c, t, false);
  }

  lemma ContinueLoad(start: State, s: State, t: nat)
    requires Inv(s) && Follows(start, s) && s.Formed() && t < |s.threads|
    requires s.threads[t].PopLoadPosition? || s.threads[t].PopLoadSequence?
    ensures Inv(s.At(t, Loaded(s, s.threads[t]))) && Follows(start, s.At(t, Loaded(s, s.threads[t])))
  {
    hide Inv, Follows;
    Continue(start, s, t, Advance(false));
  }

  lemma ReachDecision(s: State, t: nat) returns (s': State)
    requires Inv(s) && t < |s.threads| && s.threads[t].Resting() && Ready(s)
    ensures Inv(s') && Follows(s, s') && s'.Formed()
    ensures s' == s.At(t, PopDecide(s.dequeuePosition, s.dequeuePosition + 1, s.dequeuePosition, 0))
  {
    NextPopSlot(s);
    InvFormed(s);
    FollowsSelf(s);
    var d := s.dequeuePosition;
    Continue(s, s, t, BeginPop);
    hide Inv, Follows, Room, Ready, Step;
    var a := s.At(t, PopLoadPosition(d, 0));
    ContinueLoad(s, a, t);
    var b := a.At(t, PopLoadSequence(d, d, 0));
    ContinueLoad(s, b, t);
    s' := b.At(t, PopDecide(d, d + 1, d, 0));
    assert s'.threads == s.threads[t := PopDecide(d, d + 1, d, 0)];
  }

  // ----- the exact condition

  /** With room, an undecided push running by itself gets in. */
  lemma {:induction false} UndecidedGetsIn(s: State, t: nat) returns (s': State)
    requires Inv(s) && Room(s) && t < |s.threads| && Undecided(s.threads[t])
    ensures Follows(s, s') && s'.pushed == s.pushed + [s.threads[t].item]
    decreases Rank(s, t)
  {
    AlwaysEnabled(s, t, false);
    StepInv(s, t, Advance(false));
    RankFalls(s, t);
    FollowsSelf(s);
    FollowsStep(s, s, t, Advance(false));
    UndecidedTurn(s, t);
    hide Inv, Follows, Rank, Room;
    var m := Step(s, t, Advance(false));
    if m.pushed == s.pushed {
      s' := UndecidedGetsIn(m, t);
      FollowsChain(s, m, s');
    } else {
      s' := m;
    }
  }

  lemma UndecidedTurn(s: State, t: nat)
    requires Inv(s) && Room(s) && t < |s.threads| && Undecided(s.threads[t])
    requires Enabled(s, t, Advance(false))
    ensures var m := Step(s, t, Advance(false));
            || m.pushed == s.pushed + [s.threads[t].item]
            || (m.pushed == s.pushed && Room(m) && t < |m.threads| && Undecided(m.threads[t])
                && m.threads[t].item == s.threads[t].item)
  {
    if s.threads[t].PushLoadSequence? {
      PushRefusalJustified(s, t);
    }
    hide Inv;
    if s.threads[t].PushDecide? {
      UndecidedDecision(s, t);
    } else {
      assert Step(s, t, Advance(false)) == s.At(t, Loaded(s, s.threads[t]));
    }
  }

  lemma UndecidedDecision(s: State, t: nat)
    requires Room(s) && t < |s.threads| && s.threads[t].PushDecide? && Undecided(s.threads[t])
    ensures var m := PushDecided(s, t, false);
            || m.pushed == s.pushed + [s.threads[t].item]
            || (m.pushed == s.pushed && Room(m) && t < |m.threads| && Undecided(m.threads[t])
                && m.threads[t].item == s.threads[t].item)
  {
  }

  /** What keeps the next push ticket's slot occupied: an unfinished pop, or a full lap of items. */
  lemma NoRoomMeans(s: State)
    requires Inv(s) && !Room(s)
    ensures var u := s.enqueuePosition - s.Capacity();
            || u == s.dequeuePosition
            || (u in s.readers && u < s.dequeuePosition && s.readers[u] < |s.threads| && s.threads[s.readers[u]].PopCopy?
                && s.threads[s.readers[u]].position == u)
  {
    var u := s.enqueuePosition - s.Capacity();
    if u != s.dequeuePosition {
      assert ReaderOk(s, u);
    }
  }

  /** Two threads are enough to make room for a third party's push, unless one gets in on the way. */
  lemma MakeRoom(s: State, t: nat, u: nat) returns (s': State)
    requires Inv(s) && !Room(s) && t < |s.threads| && Undecided(s.threads[t]) && u < |s.threads| && u != t
    ensures Follows(s, s') && Inv(s') && s.pushed <= s'.pushed
    ensures s'.pushed != s.pushed || (Room(s') && t < |s'.threads| && s'.threads[t] == s.threads[t])
  {
    hide Inv, Follows, Alone;
    AloneReturnsSoon(s, u);
    AloneKeeps(s, u, s.elementSize + 7);
    var rested := Alone(s, u, s.elementSize + 7);
    TicketsCounted(s);
    TicketsCounted(rested);
    if rested.pushed != s.pushed || Room(rested) {
      s' := rested;
    } else {
      NoRoomMeans(rested);
      InvCapacity(rested);
      var oldest := rested.enqueuePosition - rested.Capacity();
      if oldest in rested.readers && oldest != rested.dequeuePosition {
        s' := CopyOutEnds(rested, rested.readers[oldest]);
      } else {
        s' := PopOldest(rested, t, u);
      }
      FollowsChain(s, rested, s');
    }
  }

  /** From a full queue a thread between calls takes the oldest item, once it is published. */
  lemma PopOldest(s: State, t: nat, u: nat) returns (s': State)
    requires Inv(s) && s.enqueuePosition == s.dequeuePosition + s.Capacity() && s.Capacity() >= 1
    requires t < |s.threads| && Undecided(s.threads[t]) && u < |s.threads| && u != t && s.threads[u].Resting()
    ensures Follows(s, s') && Inv(s') && s'.pushed == s.pushed
    ensures Room(s') && t < |s'.threads| && s'.threads[t] == s.threads[t]
  {
    var published := PublishOldest(s, u);
    InvCapacity(published);
    hide Inv, Follows;
    s' := PopByItself(published, u);
    FollowsChain(s, published, s');
  }

  /** The push that is still putting in the oldest item, if any, completes. */
  lemma PublishOldest(s: State, u: nat) returns (s': State)
    requires Inv(s) && s.dequeuePosition < s.enqueuePosition && u < |s.threads| && s.threads[u].Resting()
    ensures Follows(s, s') && Inv(s') && Ready(s') && s'.pushed == s.pushed && |s'.threads| == |s.threads|
    ensures s'.enqueuePosition == s.enqueuePosition && s'.dequeuePosition == s.dequeuePosition
    ensures s'.Capacity() == s.Capacity()
    ensures forall j :: 0 <= j < |s.threads| && !s.threads[j].PushCopy? ==> s'.threads[j] == s.threads[j]
  {
    FollowsSelf(s);
    s' := s;
    if s.dequeuePosition in s.writers {
      assert WriterOk(s, s.dequeuePosition);
      hide Inv, Follows;
      s' := CopyInEnds(s, s.writers[s.dequeuePosition]);
    }
  }

  /** Some continuation accepts another push. */
  ghost predicate MayAccept(s: State) {
    exists s' :: Follows(s, s') && s'.pushed != s.pushed
  }

  lemma BarredAcceptsNothing(s: State)
    requires Barred(s)
    ensures !MayAccept(s)
  {
    hide Barred, Next;
    if MayAccept(s) {
      var s' :| Follows(s, s') && s'.pushed != s.pushed;
      var trace :| Run(trace) && trace[0] == s && trace[|trace| - 1] == s';
      BarredRun(trace, |trace| - 1);
      assert false;
    }
  }

  /**
   * A closed queue may still accept a push exactly when some push is past its closed test and has
   * not been turned away, and there is room or a second thread that can make room.
   */
  lemma ClosedAcceptsExactly(s: State)
    requires Inv(s) && s.closed
    ensures MayAccept(s) <==>
            (exists t :: 0 <= t < |s.threads| && Undecided(s.threads[t])) && (Room(s) || |s.threads| >= 2)
  {
    hide Inv, Room, Undecided, Follows;
    if t: nat :| t < |s.threads| && Undecided(s.threads[t]) {
      if Room(s) {
        var s' := UndecidedGetsIn(s, t);
      } else if |s.threads| >= 2 {
        var roomy := MakeRoom(s, t, if t == 0 then 1 else 0);
        if roomy.pushed == s.pushed {
          var s' := UndecidedGetsIn(roomy, t);
          FollowsChain(s, roomy, s');
        }
      }
    }
    if NobodyUndecided(s) || (|s.threads| == 1 && !Room(s)) {
      BarredAcceptsNothing(s);
    }
  }
}
