/** What the queue promises its callers, for every run, every number of threads and every capacity of at least two. */
module QueueTheorems {
  import opened Options
  import opened QueueProtocol
  import opened QueueInvariant

  ghost predicate Reachable(s: State) {
    exists trace :: FullRun(trace) && trace[|trace| - 1] == s
  }

  lemma ReachableInv(s: State)
    requires Reachable(s) && s.Capacity() >= 2
    ensures Inv(s)
  {
    var trace :| FullRun(trace) && trace[|trace| - 1] == s;
    CapacityFixed(trace, |trace| - 1);
    RunInv(trace, |trace| - 1);
  }

  lemma {:induction false} CapacityFixed(trace: seq<State>, k: nat)
    requires Run(trace) && k < |trace|
    ensures trace[k].Capacity() == trace[0].Capacity()
  {
    hide Next, FullRun;
    if k > 0 {
      CapacityFixed(trace, k - 1);
      assert StepsAt(trace, k - 1);
      var _ := NextFramed(trace[k - 1], trace[k]);
    }
  }

  lemma ReachableStart(s: State)
    requires Initial(s)
    ensures Reachable(s)
  {
    assert FullRun([s]) && [s][0] == s;
  }

  lemma ReachableStep(s: State, t: nat, m: Move)
    requires Reachable(s) && Enabled(s, t, m)
    ensures Reachable(Step(s, t, m))
  {
    var trace :| FullRun(trace) && trace[|trace| - 1] == s;
    var longer := trace + [Step(s, t, m)];
    forall i | 0 <= i < |longer| - 1 ensures Next(longer[i], longer[i + 1]) {
      if i < |trace| - 1 { assert StepsAt(trace, i); }
    }
    assert FullRun(longer);
  }

  // ----- runs

  ghost predicate Follows(s: State, s': State) {
    exists trace :: Run(trace) && trace[0] == s && trace[|trace| - 1] == s'
  }

  lemma FollowsSelf(s: State)
    ensures Follows(s, s)
  {
    assert Run([s]) && [s][0] == s;
  }

  lemma FollowsStep(s: State, s': State, t: nat, m: Move)
    requires Follows(s, s') && Enabled(s', t, m)
    ensures Follows(s, Step(s', t, m))
  {
    var trace :| Run(trace) && trace[0] == s && trace[|trace| - 1] == s';
    var longer := trace + [Step(s', t, m)];
    forall i: nat | i + 1 < |longer| ensures StepsAt(longer, i) {
      if i + 1 < |trace| { assert StepsAt(trace, i); }
    }
    assert Run(longer);
  }

  lemma FollowsChain(s: State, s': State, s'': State)
    requires Follows(s, s') && Follows(s', s'')
    ensures Follows(s, s'')
  {
    var a :| Run(a) && a[0] == s && a[|a| - 1] == s';
    var b :| Run(b) && b[0] == s' && b[|b| - 1] == s'';
    var c := a + b[1..];
    forall i: nat | i + 1 < |c| ensures StepsAt(c, i) {
      if i + 1 < |a| {
        assert StepsAt(a, i);
      } else {
        assert StepsAt(b, i + 1 - |a|);
      }
    }
    assert Run(c) && c[0] == s && c[|c| - 1] == s'';
  }

  // ----- no thread is ever stuck, and copies never collide

  /** A thread inside a call always has a step, and its copy stays inside the slot. */
  lemma AlwaysEnabled(s: State, t: nat, spurious: bool)
    requires Inv(s) && t < |s.threads| && !s.threads[t].Resting()
    ensures Enabled(s, t, Advance(spurious))
  {
    assert ThreadOk(s, t);
  }

  /** Between its compare-and-swap and its release store a thread has its physical slot to itself. */
  lemma ExclusiveCopy(s: State, t1: nat, t2: nat)
    requires Inv(s) && t1 < |s.threads| && t2 < |s.threads| && t1 != t2
    requires s.threads[t1].Copying() && s.threads[t2].Copying()
    ensures s.SlotOf(s.threads[t1].position) != s.SlotOf(s.threads[t2].position)
  {
    assert ThreadOk(s, t1) && ThreadOk(s, t2);
    var u, v := s.threads[t1].position, s.threads[t2].position;
    if u == v {
      OwnTickets(s, t1);
      OwnTickets(s, t2);
    } else {
      CopiesApart(s, u, v);
    }
  }

  // ----- when a call is turned away

  /** The next push ticket has a slot to go to: the ticket a lap earlier has been released. */
  ghost predicate Room(s: State) {
    && s.enqueuePosition < s.dequeuePosition + s.Capacity()
    && (s.enqueuePosition >= s.Capacity() ==> s.enqueuePosition - s.Capacity() !in s.readers)
  }

  /** The next pop ticket has a published item. */
  ghost predicate Ready(s: State) {
    s.dequeuePosition < s.enqueuePosition && s.dequeuePosition !in s.writers
  }


  /** Moving a ticket forward by whole laps until it falls in a given window. */
  lemma {:induction false} LapInto(position: nat, low: nat, capacity: nat) returns (v: nat)
    requires capacity >= 1 && position < low
    ensures low <= v < low + capacity && v >= position + capacity && Slot(v, capacity) == Slot(position, capacity)
    decreases low - position
  {
    SlotNextLap(position, capacity);
    if position + capacity < low {
      v := LapInto(position + capacity, low, capacity);
    } else {
      v := position + capacity;
    }
  }

  /** A slot never falls behind a ticket that was claimed on it. */
  lemma ClaimedSlotMovedOn(s: State, position: nat)
    requires Inv(s)
    ensures position < s.enqueuePosition ==> position <= s.sequence[s.SlotOf(position)]
    ensures position < s.dequeuePosition ==> position + 1 <= s.sequence[s.SlotOf(position)]
  {
    if position < s.dequeuePosition {
      var v := LapInto(position, s.dequeuePosition, s.Capacity());
      if v < s.enqueuePosition {
        assert HeldTicket(s, v);
      } else {
        assert FreeTicket(s, v);
      }
    } else if position < s.enqueuePosition {
      assert HeldTicket(s, position);
    }
  }

  /** The sequence load that makes push give up: exactly when its position is current and has no room. */
  lemma PushRefusalJustified(s: State, t: nat)
    requires Inv(s) && t < |s.threads| && s.threads[t].PushLoadSequence?
    ensures var position := s.threads[t].position;
            s.sequence[s.SlotOf(position)] < position
            <==> position == s.enqueuePosition && !Room(s)
  {
    var position := s.threads[t].position;
    assert ThreadOk(s, t);
    ClaimedSlotMovedOn(s, position);
    NextPushSlot(s);
  }

  /** The sequence load that makes pop give up: exactly when its position is current and that ticket is not ready. */
  lemma PopRefusalJustified(s: State, t: nat)
    requires Inv(s) && t < |s.threads| && s.threads[t].PopLoadSequence?
    ensures var position := s.threads[t].position;
            s.sequence[s.SlotOf(position)] < position + 1
            <==> position == s.dequeuePosition && !Ready(s)
  {
    var position := s.threads[t].position;
    assert ThreadOk(s, t);
    ClaimedSlotMovedOn(s, position);
    NextPopSlot(s);
  }

  /** With no copy under way, refusals mean exactly full and exactly empty. */
  lemma QuietRefusals(s: State, t: nat)
    requires Inv(s) && t < |s.threads|
    requires forall i :: 0 <= i < |s.threads| ==> !s.threads[i].Copying()
    ensures s.threads[t].PushLoadSequence? ==>
              (s.sequence[s.SlotOf(s.threads[t].position)] < s.threads[t].position
               <==> s.threads[t].position == s.enqueuePosition == s.dequeuePosition + s.Capacity())
    ensures s.threads[t].PopLoadSequence? ==>
              (s.sequence[s.SlotOf(s.threads[t].position)] < s.threads[t].position + 1
               <==> s.threads[t].position == s.dequeuePosition == s.enqueuePosition)
  {
    NobodyCopies(s);
    if s.threads[t].PushLoadSequence? {
      PushRefusalJustified(s, t);
    }
    if s.threads[t].PopLoadSequence? {
      PopRefusalJustified(s, t);
    }
  }

  lemma NobodyCopies(s: State)
    requires Inv(s) && forall i :: 0 <= i < |s.threads| ==> !s.threads[i].Copying()
    ensures s.writers == map[] && s.readers == map[]
  {
    assert forall u :: u !in s.writers;
    assert forall u :: u !in s.readers;
  }

  /** From `b` to `n` thread `t` is inside one call, which may have returned at `n`. */
  ghost predicate OneCall(trace: seq<State>, b: nat, n: nat, t: nat) {
    && b <= n < |trace|
    && (forall j :: b <= j <= n ==> t < |trace[j].threads|)
    && (forall j :: b <= j < n ==> !trace[j].threads[t].Resting())
  }

  /** The thread has loaded a sequence that turns it away. */
  predicate TurnedAway(thread: Thread) {
    || (thread.PushDecide? && thread.loaded < thread.position)
    || (thread.PopDecide? && thread.loaded < thread.position + 1)
  }

  predicate Refused(thread: Thread) {
    (thread.PushReturned? || thread.PopReturned?) && thread.ticket.None?
  }

  /** One step of the thread itself: where a refusal comes from. */
  ghost predicate ComesFrom(s: State, before: Thread, after: Thread) {
    && (TurnedAway(after) ==> (before.PushLoadSequence? && after.PushDecide? && !Room(s))
                              || (before.PopLoadSequence? && after.PopDecide? && !Ready(s)))
    && (Refused(after) ==> (before.PushStart? && after.PushReturned? && s.closed)
                           || (TurnedAway(before) && (before.PushDecide? <==> after.PushReturned?)))
  }

  lemma LoadRefusal(s: State, t: nat)
    requires Inv(s) && t < |s.threads| && !s.threads[t].Resting() && !s.threads[t].Copying()
    requires !s.threads[t].PushDecide? && !s.threads[t].PopDecide?
    ensures ComesFrom(s, s.threads[t], Loaded(s, s.threads[t]))
  {
    hide Inv, Room, Ready;
    InvFormed(s);
    if s.threads[t].PushLoadSequence? {
      PushRefusalJustified(s, t);
    } else if s.threads[t].PopLoadSequence? {
      PopRefusalJustified(s, t);
    }
  }

  lemma TicketsCounted(s: State)
    requires Inv(s)
    ensures |s.pushed| == s.enqueuePosition
  {
  }

  lemma InvCapacity(s: State)
    ensures Inv(s) ==> s.Capacity() >= 2
  {
  }

  lemma InvFormed(s: State)
    requires Inv(s)
    ensures s.Formed()
  {
  }

  lemma DecisionRefusal(s: State, t: nat, spurious: bool)
    requires t < |s.threads|
    ensures s.threads[t].PushDecide? ==>
              t < |PushDecided(s, t, spurious).threads|
              && ComesFrom(s, s.threads[t], PushDecided(s, t, spurious).threads[t])
    ensures s.threads[t].PopDecide? ==>
              t < |PopDecided(s, t, spurious).threads|
              && ComesFrom(s, s.threads[t], PopDecided(s, t, spurious).threads[t])
  {
  }

  lemma CopyRefusal(s: State, t: nat)
    requires Enabled(s, t, Advance(false)) && s.threads[t].Copying()
    ensures t < |Step(s, t, Advance(false)).threads|
    ensures ComesFrom(s, s.threads[t], Step(s, t, Advance(false)).threads[t])
  {
    hide Room, Ready;
  }

  lemma OwnRefusal(s: State, t: nat, spurious: bool)
    requires Inv(s) && Enabled(s, t, Advance(spurious))
    ensures t < |Step(s, t, Advance(spurious)).threads|
    ensures ComesFrom(s, s.threads[t], Step(s, t, Advance(spurious)).threads[t])
  {
    hide Inv, ComesFrom;
    if s.threads[t].Copying() {
      CopyRefusal(s, t);
    } else if s.threads[t].PushDecide? || s.threads[t].PopDecide? {
      DecisionRefusal(s, t, spurious);
    } else {
      LoadRefusal(s, t);
    }
  }

  /** The same for any step of the queue: other threads leave the thread where it is. */
  lemma RefusalOrigin(s: State, s': State, t: nat)
    requires Inv(s) && Next(s, s') && t < |s.threads| && !s.threads[t].Resting()
    ensures t < |s'.threads| && (s'.threads[t] == s.threads[t] || ComesFrom(s, s.threads[t], s'.threads[t]))
  {
    hide Inv, ComesFrom, Step;
    var u: nat, m: Move :| Enabled(s, u, m) && s' == Step(s, u, m);
    if u == t {
      OwnRefusal(s, t, m.spurious);
    } else {
      StepFramed(s, u, m);
    }
  }

  lemma {:induction false} PushTurnedAway(trace: seq<State>, b: nat, n: nat, t: nat) returns (k: nat)
    requires FullRun(trace) && trace[0].Capacity() >= 2 && OneCall(trace, b, n, t) && trace[b].threads[t].PushStart?
    requires trace[n].threads[t].PushDecide? && trace[n].threads[t].loaded < trace[n].threads[t].position
    ensures b <= k < n && !Room(trace[k])
    decreases n
  {
    hide Inv, Next, Room, Ready, Initial;
    assert StepsAt(trace, n - 1);
    RunInv(trace, n - 1);
    RefusalOrigin(trace[n - 1], trace[n], t);
    if trace[n - 1].threads[t] == trace[n].threads[t] {
      k := PushTurnedAway(trace, b, n - 1, t);
    } else {
      k := n - 1;
    }
  }

  lemma {:induction false} PopTurnedAway(trace: seq<State>, b: nat, n: nat, t: nat) returns (k: nat)
    requires FullRun(trace) && trace[0].Capacity() >= 2 && OneCall(trace, b, n, t) && trace[b].threads[t].PopLoadPosition?
    requires trace[n].threads[t].PopDecide? && trace[n].threads[t].loaded < trace[n].threads[t].position + 1
    ensures b <= k < n && !Ready(trace[k])
    decreases n
  {
    hide Inv, Next, Room, Ready, Initial;
    assert StepsAt(trace, n - 1);
    RunInv(trace, n - 1);
    RefusalOrigin(trace[n - 1], trace[n], t);
    if trace[n - 1].threads[t] == trace[n].threads[t] {
      k := PopTurnedAway(trace, b, n - 1, t);
    } else {
      k := n - 1;
    }
  }

  /** A push that returned false: at some moment during the call the queue was closed or had no room. */
  lemma RefusedPushHadReason(trace: seq<State>, b: nat, n: nat, t: nat) returns (k: nat)
    requires FullRun(trace) && trace[0].Capacity() >= 2 && OneCall(trace, b, n, t) && trace[b].threads[t].PushStart?
    requires trace[n].threads[t] == PushReturned(None)
    ensures b <= k < n && (trace[k].closed || !Room(trace[k]))
  {
    hide Inv, Next, Room, Ready, Initial;
    assert StepsAt(trace, n - 1);
    RunInv(trace, n - 1);
    RefusalOrigin(trace[n - 1], trace[n], t);
    if trace[n - 1].threads[t].PushStart? {
      k := n - 1;
    } else {
      k := PushTurnedAway(trace, b, n - 1, t);
    }
  }

  /** A pop that returned false: at some moment during the call the next ticket was not ready. */
  lemma RefusedPopHadReason(trace: seq<State>, b: nat, n: nat, t: nat) returns (k: nat)
    requires FullRun(trace) && trace[0].Capacity() >= 2 && OneCall(trace, b, n, t) && trace[b].threads[t].PopLoadPosition?
    requires trace[n].threads[t].PopReturned? && trace[n].threads[t].ticket.None?
    ensures b <= k < n && !Ready(trace[k])
  {
    hide Inv, Next, Room, Ready, Initial;
    assert StepsAt(trace, n - 1);
    RunInv(trace, n - 1);
    RefusalOrigin(trace[n - 1], trace[n], t);
    k := PopTurnedAway(trace, b, n - 1, t);
  }

  // ----- refinement of an atomic bounded FIFO

  /**
   * A client of the abstract queue. A call takes effect in one step and answers in a later one;
   * `excused` records that the queue has turned this call away.
   */
  datatype Client =
    | Outside
    | WantsPush(item: Item, excused: bool)
    | Putting(ticket: nat)
    | PushAnswered(accepted: bool)
    | WantsPop(excused: bool)
    | Taking(ticket: nat, item: Item)
    | PopAnswered(result: Option<Item>)

  /** `served` counts the pops that have taken effect. */
  datatype Fifo = Fifo(contents: seq<Item>, served: nat, closed: bool, clients: seq<Client>)

  /** As many items as slots, or the slot that the next push needs is still being emptied. */
  ghost predicate FifoFull(capacity: nat, a: Fifo) {
    || |a.contents| == capacity
    || exists c :: 0 <= c < |a.clients| && a.clients[c].Taking?
                   && a.clients[c].ticket + capacity == a.served + |a.contents|
  }

  /** No item, or the oldest one is still being put in. */
  ghost predicate FifoEmpty(a: Fifo) {
    || a.contents == []
    || exists c :: 0 <= c < |a.clients| && a.clients[c] == Putting(a.served)
  }

  /** One atomic operation of the abstract queue on behalf of client `t`. */
  ghost predicate FifoStep(capacity: nat, a: Fifo, a': Fifo, t: nat) {
    && t < |a.clients|
    && (|| (exists item :: Calls(a, a', t, WantsPush(item, false)))
        || Calls(a, a', t, WantsPop(false))
        || a' == a.(closed := true)
        || FifoPush(capacity, a, a', t)
        || FifoPop(a, a', t)
        || FifoExcuse(capacity, a, a', t)
        || FifoAnswer(a, a', t))
  }

  /** A call may be turned away only at a moment at which the queue is full, or empty. */
  ghost predicate FifoExcuse(capacity: nat, a: Fifo, a': Fifo, t: nat)
    requires t < |a.clients|
  {
    || (&& a.clients[t].WantsPush? && FifoFull(capacity, a)
        && a' == a.(clients := a.clients[t := a.clients[t].(excused := true)]))
    || (&& a.clients[t].WantsPop? && FifoEmpty(a)
        && a' == a.(clients := a.clients[t := WantsPop(true)]))
  }

  /** How a call returns: it has had its effect, or was turned away, or found the queue closed. */
  ghost predicate FifoAnswer(a: Fifo, a': Fifo, t: nat)
    requires t < |a.clients|
  {
    match a.clients[t]
    case WantsPush(_, excused) =>
      (excused || a.closed) && a' == a.(clients := a.clients[t := PushAnswered(false)])
    case WantsPop(excused) => excused && a' == a.(clients := a.clients[t := PopAnswered(None)])
    case Putting(_) => a' == a.(clients := a.clients[t := PushAnswered(true)])
    case Taking(_, item) => a' == a.(clients := a.clients[t := PopAnswered(Some(item))])
    case _ => false
  }

  ghost predicate Calls(a: Fifo, a': Fifo, t: nat, call: Client)
    requires t < |a.clients|
  {
    && (a.clients[t].Outside? || a.clients[t].PushAnswered? || a.clients[t].PopAnswered?)
    && a' == a.(clients := a.clients[t := call])
  }

  ghost predicate FifoPush(capacity: nat, a: Fifo, a': Fifo, t: nat)
    requires t < |a.clients|
  {
    && a.clients[t].WantsPush? && !a.clients[t].excused && |a.contents| < capacity
    && a' == a.(contents := a.contents + [a.clients[t].item],
                clients := a.clients[t := Putting(a.served + |a.contents|)])
  }

  ghost predicate FifoPop(a: Fifo, a': Fifo, t: nat)
    requires t < |a.clients|
  {
    && a.clients[t] == WantsPop(false) && |a.contents| > 0
    && a' == a.(contents := a.contents[1..], served := a.served + 1,
                clients := a.clients[t := Taking(a.served, a.contents[0])])
  }

  /** A call is turned away by the sequence it has loaded. */
  function AbstractClient(s: State, thread: Thread): Client {
    match thread
    case Idle => Outside
    case PushStart(item) => WantsPush(item, false)
    case PushLoadPosition(item, _, _) => WantsPush(item, false)
    case PushLoadSequence(item, _, _, _) => WantsPush(item, false)
    case PushDecide(item, position, loaded, _, _) => WantsPush(item, loaded < position)
    case PushCopy(_, position, _) => Putting(position)
    case PushReturned(ticket) => PushAnswered(ticket.Some?)
    case PopLoadPosition(_, _) => WantsPop(false)
    case PopLoadSequence(_, _, _) => WantsPop(false)
    case PopDecide(position, loaded, _, _) => WantsPop(loaded < position + 1)
    case PopCopy(position, _) => Taking(position, if position < |s.pushed| then s.pushed[position] else [])
    case PopReturned(ticket, out) => PopAnswered(if ticket.Some? then Some(out) else None)
  }

  ghost function Abstract(s: State): Fifo
    requires Shape(s)
  {
    Fifo(s.pushed[s.dequeuePosition..], s.dequeuePosition, s.closed,
         seq(|s.threads|, t requires 0 <= t < |s.threads| => AbstractClient(s, s.threads[t])))
  }

  ghost predicate ReadsClaimed(s: State) {
    forall i :: 0 <= i < |s.threads| && s.threads[i].PopCopy? ==> s.threads[i].position < |s.pushed|
  }

  /** What the abstraction needs to know of the invariant. */
  ghost predicate Linked(s: State, s': State, t: nat) {
    Shape(s) && Shape(s') && Evolves(s, s', t) && ReadsClaimed(s)
  }

  lemma AbstractAt(s: State, s': State, t: nat)
    requires Linked(s, s', t)
    ensures Abstract(s').clients == Abstract(s).clients[t := AbstractClient(s', s'.threads[t])]
  {
    forall i | 0 <= i < |s.threads| && i != t
      ensures AbstractClient(s', s'.threads[i]) == AbstractClient(s, s.threads[i]) {
      assert s'.threads[i] == s.threads[i];
    }
  }

  /** A step that moves no position shows, at most, in one client. */
  lemma AbstractLocal(s: State, s': State, t: nat)
    requires Linked(s, s', t)
    requires s'.pushed == s.pushed && s'.dequeuePosition == s.dequeuePosition && s'.closed == s.closed
    ensures Abstract(s') == Abstract(s).(clients := Abstract(s).clients[t := AbstractClient(s', s'.threads[t])])
    ensures AbstractClient(s', s'.threads[t]) == AbstractClient(s, s.threads[t]) ==> Abstract(s') == Abstract(s)
  {
    AbstractAt(s, s', t);
    var a := Abstract(s);
    assert a.clients[t] == AbstractClient(s, s.threads[t]);
    assert a.clients[t := a.clients[t]] == a.clients;
  }

  lemma StepLinked(s: State, t: nat, m: Move)
    requires Inv(s) && Enabled(s, t, m)
    ensures Inv(Step(s, t, m)) && Linked(s, Step(s, t, m), t)
    ensures ThreadOk(s, t) && ThreadOk(Step(s, t, m), t)
  {
    StepInv(s, t, m);
    StepEvolves(s, t, m);
    forall i | 0 <= i < |s.threads| && s.threads[i].PopCopy? ensures s.threads[i].position < |s.pushed| {
      assert ThreadOk(s, i);
    }
  }

  /**
   * Every step is one abstract operation or invisible: the successful compare-and-swaps are the
   * effects, the refusing sequence loads the excuses.
   */
  lemma StepRefines(s: State, t: nat, m: Move)
    requires Inv(s) && Enabled(s, t, m)
    ensures Shape(Step(s, t, m))
    ensures FifoStutter(s.Capacity(), Abstract(s), Abstract(Step(s, t, m)), t)
  {
    hide Inv;
    StepLinked(s, t, m);
    if m.Advance? && (s.threads[t].PushLoadSequence? || s.threads[t].PopLoadSequence?) {
      LookRefines(s, t);
    } else {
      LinkedRefines(s, t, m);
    }
  }

  ghost predicate FifoStutter(capacity: nat, a: Fifo, a': Fifo, t: nat) {
    a' == a || FifoStep(capacity, a, a', t)
  }

  lemma LinkedRefines(s: State, t: nat, m: Move)
    requires Enabled(s, t, m) && Linked(s, Step(s, t, m), t)
    requires ThreadOk(s, t) && !(m.Advance? && (s.threads[t].PushLoadSequence? || s.threads[t].PopLoadSequence?))
    ensures FifoStutter(s.Capacity(), Abstract(s), Abstract(Step(s, t, m)), t)
  {
    if !m.Advance? {
      CallRefines(s, t, m);
    } else if s.threads[t].PushCopy? {
      PushCopyRefines(s, t);
    } else if s.threads[t].PopCopy? {
      PopCopyRefines(s, t);
    } else if s.threads[t].PushDecide? {
      PushDecideRefines(s, t, m.spurious);
    } else if s.threads[t].PopDecide? {
      PopDecideRefines(s, t, m.spurious);
    } else {
      LoadRefines(s, t);
    }
  }

  lemma CallRefines(s: State, t: nat, m: Move)
    requires Enabled(s, t, m) && Linked(s, Step(s, t, m), t) && !m.Advance?
    ensures FifoStutter(s.Capacity(), Abstract(s), Abstract(Step(s, t, m)), t)
  {
    var s' := Step(s, t, m);
    match m
    case Close =>
      AbstractAt(s, s', t);
      assert Abstract(s').clients == Abstract(s).clients;
    case BeginPush(item) =>
      AbstractLocal(s, s', t);
      assert Calls(Abstract(s), Abstract(s'), t, WantsPush(item, false));
    case BeginPop =>
      AbstractLocal(s, s', t);
      assert Calls(Abstract(s), Abstract(s'), t, WantsPop(false));
  }

  /** The closed test answers a push of a closed queue; loading a position shows nothing. */
  lemma LoadRefines(s: State, t: nat)
    requires t < |s.threads| && s.Formed()
    requires s.threads[t].PushStart? || s.threads[t].PushLoadPosition? || s.threads[t].PopLoadPosition?
    requires Linked(s, s.At(t, Loaded(s, s.threads[t])), t)
    ensures FifoStutter(s.Capacity(), Abstract(s), Abstract(s.At(t, Loaded(s, s.threads[t]))), t)
  {
    var s' := s.At(t, Loaded(s, s.threads[t]));
    AbstractLocal(s, s', t);
    if s.threads[t].PushStart? && s.closed {
      assert FifoAnswer(Abstract(s), Abstract(s'), t);
    }
  }

  /** A sequence load that will turn its call away happens while the queue is full, or empty. */
  lemma LookRefines(s: State, t: nat)
    requires Inv(s) && t < |s.threads| && (s.threads[t].PushLoadSequence? || s.threads[t].PopLoadSequence?)
    requires Linked(s, s.At(t, Loaded(s, s.threads[t])), t)
    ensures FifoStutter(s.Capacity(), Abstract(s), Abstract(s.At(t, Loaded(s, s.threads[t]))), t)
  {
    var s' := s.At(t, Loaded(s, s.threads[t]));
    AbstractLocal(s, s', t);
    if s.threads[t].PushLoadSequence? {
      PushRefusalJustified(s, t);
      if AbstractClient(s', s'.threads[t]).excused {
        RoomlessIsFull(s);
        assert FifoExcuse(s.Capacity(), Abstract(s), Abstract(s'), t);
      }
    } else {
      PopRefusalJustified(s, t);
      if AbstractClient(s', s'.threads[t]).excused {
        UnreadyIsEmpty(s);
        assert FifoExcuse(s.Capacity(), Abstract(s), Abstract(s'), t);
      }
    }
  }

  lemma RoomlessIsFull(s: State)
    requires Inv(s) && !Room(s)
    ensures FifoFull(s.Capacity(), Abstract(s))
  {
    var a := Abstract(s);
    var u := s.enqueuePosition - s.Capacity();
    if |a.contents| != s.Capacity() {
      assert ReaderOk(s, u);
      assert a.clients[s.readers[u]] == AbstractClient(s, s.threads[s.readers[u]]);
    }
  }

  lemma UnreadyIsEmpty(s: State)
    requires Inv(s) && !Ready(s)
    ensures FifoEmpty(Abstract(s))
  {
    var a := Abstract(s);
    if a.contents != [] {
      assert WriterOk(s, s.dequeuePosition);
      assert a.clients[s.writers[s.dequeuePosition]] == Putting(s.dequeuePosition);
    }
  }

  /** Copying in shows nothing; the store that publishes lets the push answer. */
  lemma PushCopyRefines(s: State, t: nat)
    requires Enabled(s, t, Advance(false)) && s.threads[t].PushCopy?
    requires Linked(s, Step(s, t, Advance(false)), t)
    ensures FifoStutter(s.Capacity(), Abstract(s), Abstract(Step(s, t, Advance(false))), t)
  {
    var s' := Step(s, t, Advance(false));
    AbstractLocal(s, s', t);
    if s.threads[t].copied >= s.elementSize {
      assert FifoAnswer(Abstract(s), Abstract(s'), t);
    }
  }

  /** Copying out shows nothing; the store that releases answers with the bytes promised. */
  lemma PopCopyRefines(s: State, t: nat)
    requires Enabled(s, t, Advance(false)) && s.threads[t].PopCopy?
    requires Linked(s, Step(s, t, Advance(false)), t) && ThreadOk(s, t)
    ensures FifoStutter(s.Capacity(), Abstract(s), Abstract(Step(s, t, Advance(false))), t)
  {
    var s' := Step(s, t, Advance(false));
    var promised := s.pushed[s.threads[t].position];
    assert promised[..s.elementSize] == promised;
    AbstractLocal(s, s', t);
    if |s.threads[t].out| >= s.elementSize {
      assert FifoAnswer(Abstract(s), Abstract(s'), t);
    }
  }

  /** Giving up answers a client that was turned away; any other turn of the loop is invisible. */
  lemma NoClaimRefines(s: State, t: nat, thread: Thread)
    requires t < |s.threads| && Linked(s, s.At(t, thread), t)
    requires var before, after := AbstractClient(s, s.threads[t]), AbstractClient(s, thread);
             after == before || (before.WantsPush? && before.excused && after == PushAnswered(false))
             || (before == WantsPop(true) && after == PopAnswered(None))
    ensures FifoStutter(s.Capacity(), Abstract(s), Abstract(s.At(t, thread)), t)
  {
    var s' := s.At(t, thread);
    AbstractLocal(s, s', t);
    if AbstractClient(s, thread) != AbstractClient(s, s.threads[t]) {
      assert FifoAnswer(Abstract(s), Abstract(s'), t);
    }
  }

  lemma PushDecideRefines(s: State, t: nat, spurious: bool)
    requires t < |s.threads| && s.threads[t].PushDecide?
    requires Linked(s, PushDecided(s, t, spurious), t)
    ensures FifoStutter(s.Capacity(), Abstract(s), Abstract(PushDecided(s, t, spurious)), t)
  {
    hide Linked, FifoStutter, Abstract;
    var thread := s.threads[t];
    if thread.loaded == thread.position == s.enqueuePosition && !spurious {
      PushClaimRefines(s, t);
    } else {
      NoClaimRefines(s, t, PushDecided(s, t, spurious).threads[t]);
    }
  }

  lemma PopDecideRefines(s: State, t: nat, spurious: bool)
    requires t < |s.threads| && s.threads[t].PopDecide?
    requires Linked(s, PopDecided(s, t, spurious), t)
    ensures FifoStutter(s.Capacity(), Abstract(s), Abstract(PopDecided(s, t, spurious)), t)
  {
    hide Linked, FifoStutter, Abstract;
    var thread := s.threads[t];
    if thread.loaded == thread.position + 1 && thread.position == s.dequeuePosition && !spurious {
      PopClaimRefines(s, t);
    } else {
      NoClaimRefines(s, t, PopDecided(s, t, spurious).threads[t]);
    }
  }

  lemma PushClaimRefines(s: State, t: nat)
    requires t < |s.threads| && s.threads[t].PushDecide?
    requires s.threads[t].loaded == s.threads[t].position == s.enqueuePosition
    requires Linked(s, PushDecided(s, t, false), t)
    ensures FifoPush(s.Capacity(), Abstract(s), Abstract(PushDecided(s, t, false)), t)
    ensures FifoStutter(s.Capacity(), Abstract(s), Abstract(PushDecided(s, t, false)), t)
  {
    var s' := PushDecided(s, t, false);
    AbstractAt(s, s', t);
    assert Abstract(s').contents == Abstract(s).contents + [s.threads[t].item];
  }

  lemma PopClaimRefines(s: State, t: nat)
    requires t < |s.threads| && s.threads[t].PopDecide?
    requires s.threads[t].loaded == s.threads[t].position + 1 && s.threads[t].position == s.dequeuePosition
    requires Linked(s, PopDecided(s, t, false), t)
    ensures FifoPop(Abstract(s), Abstract(PopDecided(s, t, false)), t)
    ensures FifoStutter(s.Capacity(), Abstract(s), Abstract(PopDecided(s, t, false)), t)
  {
    var s' := PopDecided(s, t, false);
    AbstractAt(s, s', t);
    var d := s.dequeuePosition;
    assert s.pushed[d..][1..] == s.pushed[d + 1..];
    assert Abstract(s).contents[0] == s.pushed[d];
  }

  /** Either nothing a client can see, or one atomic operation of some client. */
  ghost predicate FifoNext(capacity: nat, a: Fifo, a': Fifo) {
    exists t: nat :: FifoStutter(capacity, a, a', t)
  }

  lemma ShapeBounds(s: State)
    requires Inv(s)
    ensures |Abstract(s).contents| <= s.Capacity()
  {
  }

  /** A new queue is the empty, open FIFO with nobody inside a call. */
  lemma InitialIsEmpty(s: State)
    requires Initial(s) && s.Capacity() >= 2
    ensures Inv(s) && Abstract(s) == Fifo([], 0, false, seq(|s.threads|, t => Outside))
  {
    InitialInv(s);
  }

  /** Every run of the queue is, from its start and step by step, a run of the atomic bounded FIFO. */
  lemma RunRefines(trace: seq<State>, i: nat)
    requires FullRun(trace) && trace[0].Capacity() >= 2 && i + 1 < |trace|
    ensures Inv(trace[i]) && Inv(trace[i + 1])
    ensures Inv(trace[0]) && Abstract(trace[0]) == Fifo([], 0, false, seq(|trace[0].threads|, t => Outside))
    ensures |Abstract(trace[i]).contents| <= trace[0].Capacity()
    ensures FifoNext(trace[0].Capacity(), Abstract(trace[i]), Abstract(trace[i + 1]))
  {
    InitialIsEmpty(trace[0]);
    hide Initial, Inv, Abstract;
    RunInv(trace, i);
    RunInv(trace, i + 1);
    CapacityFixed(trace, i);
    assert StepsAt(trace, i);
    ShapeBounds(trace[i]);
    var t: nat, m: Move :| Enabled(trace[i], t, m) && trace[i + 1] == Step(trace[i], t, m);
    StepRefines(trace[i], t, m);
  }

  /** The pop that holds ticket `k` returns exactly the item of the push that holds ticket `k`. */
  lemma PopGetsItsPush(s: State, t: nat)
    requires Inv(s) && t < |s.threads| && s.threads[t].PopReturned? && s.threads[t].ticket.Some?
    ensures s.threads[t].ticket.value < |s.pushed|
    ensures s.threads[t].out == s.pushed[s.threads[t].ticket.value]
  {
    assert ThreadOk(s, t);
  }

  // ----- order in time

  lemma {:induction false} PositionsGrow(trace: seq<State>, i: nat, j: nat)
    requires Run(trace) && i <= j < |trace|
    ensures trace[i].enqueuePosition <= trace[j].enqueuePosition
    ensures trace[i].dequeuePosition <= trace[j].dequeuePosition
    ensures trace[i].pushed <= trace[j].pushed
  {
    hide Next, FullRun;
    if i < j {
      PositionsGrow(trace, i, j - 1);
      assert StepsAt(trace, j - 1);
      var _ := NextFramed(trace[j - 1], trace[j]);
    }
  }

  /**
   * A push that has returned holds a smaller ticket than every push that claims later,
   * and no pop takes the later item unless one has taken the earlier.
   */
  lemma RealTimeOrder(trace: seq<State>, i: nat, t: nat, j: nat, t': nat, n: nat)
    requires FullRun(trace) && trace[0].Capacity() >= 2
    requires i <= j && j + 1 < |trace| && n < |trace|
    requires t < |trace[i].threads| && trace[i].threads[t].PushReturned? && trace[i].threads[t].ticket.Some?
    requires t' < |trace[j].threads| && t' < |trace[j + 1].threads|
    requires !trace[j].threads[t'].PushCopy? && trace[j + 1].threads[t'].PushCopy?
    ensures var early, late := trace[i].threads[t].ticket.value, trace[j + 1].threads[t'].position;
            && early < late
            && (late in trace[n].readers || late in trace[n].delivered ==>
                  early in trace[n].readers || early in trace[n].delivered)
  {
    RunInv(trace, i);
    RunInv(trace, n);
    assert ThreadOk(trace[i], t);
    PositionsGrow(trace, i, j);
    assert StepsAt(trace, j);
    var _ := NextFramed(trace[j], trace[j + 1]);
    if trace[j + 1].threads[t'].position in trace[n].readers {
      assert ReaderOk(trace[n], trace[j + 1].threads[t'].position);
    }
  }

  // ----- progress

  /** Turns of the loop are paid for, one by one, by tickets claimed since the call began. */
  lemma RetriesBounded(s: State, t: nat)
    requires Inv(s) && t < |s.threads|
    ensures s.threads[t].PushDecide? ==> s.threads[t].retries <= s.enqueuePosition - s.threads[t].base
    ensures s.threads[t].PopDecide? ==> s.threads[t].retries <= s.dequeuePosition - s.threads[t].base
  {
    assert ThreadOk(s, t);
  }

  /** A retry that is not spurious finds the shared position strictly ahead of the local one. */
  lemma RetryFindsPositionAhead(s: State, t: nat, spurious: bool)
    requires Inv(s) && t < |s.threads|
    ensures s.threads[t].PushDecide? && PushDecided(s, t, spurious).threads[t].PushLoadPosition? ==>
              s.threads[t].position < s.enqueuePosition
    ensures s.threads[t].PushDecide? && PushDecided(s, t, spurious).threads[t].PushLoadSequence? ==>
              PushDecided(s, t, spurious).threads[t].position > s.threads[t].position
              || (spurious && s.threads[t].position == s.enqueuePosition)
    ensures s.threads[t].PopDecide? && PopDecided(s, t, spurious).threads[t].PopLoadPosition? ==>
              s.threads[t].position < s.dequeuePosition
    ensures s.threads[t].PopDecide? && PopDecided(s, t, spurious).threads[t].PopLoadSequence? ==>
              PopDecided(s, t, spurious).threads[t].position > s.threads[t].position
              || (spurious && s.threads[t].position == s.dequeuePosition)
  {
    assert ThreadOk(s, t);
  }

  /** Steps that thread `t`, running alone without spurious failures, still needs to return. */
  function Rank(s: State, t: nat): nat
    requires t < |s.threads|
  {
    var w := s.elementSize;
    match s.threads[t]
    case PushStart(_) => w + 6
    case PushLoadPosition(_, _, _) => w + 5
    case PushLoadSequence(_, position, _, _) => if position == s.enqueuePosition then w + 4 else w + 7
    case PushDecide(_, position, loaded, _, _) =>
      if loaded < position then 1
      else if loaded > position then w + 6
      else if position == s.enqueuePosition then w + 3 else w + 5
    case PushCopy(_, _, copied) => if copied <= w then w - copied + 1 else 1
    case PopLoadPosition(_, _) => w + 5
    case PopLoadSequence(position, _, _) => if position == s.dequeuePosition then w + 4 else w + 7
    case PopDecide(position, loaded, _, _) =>
      if loaded < position + 1 then 1
      else if loaded > position + 1 then w + 6
      else if position == s.dequeuePosition then w + 3 else w + 5
    case PopCopy(_, out) => if |out| <= w then w - |out| + 1 else 1
    case _ => 0
  }

  lemma RankFallsOnLoad(s: State, t: nat)
    requires Inv(s) && t < |s.threads| && !s.threads[t].Resting() && !s.threads[t].Copying()
    requires !s.threads[t].PushDecide? && !s.threads[t].PopDecide?
    ensures Rank(s.At(t, Loaded(s, s.threads[t])), t) < Rank(s, t)
  {
    assert ThreadOk(s, t);
    NextPushSlot(s);
    NextPopSlot(s);
  }

  lemma RankFallsOnDecide(s: State, t: nat)
    requires Inv(s) && t < |s.threads|
    ensures s.threads[t].PushDecide? ==> Rank(PushDecided(s, t, false), t) < Rank(s, t)
    ensures s.threads[t].PopDecide? ==> Rank(PopDecided(s, t, false), t) < Rank(s, t)
  {
    assert ThreadOk(s, t);
  }

  lemma RankFalls(s: State, t: nat)
    requires Inv(s) && Enabled(s, t, Advance(false))
    ensures Rank(Step(s, t, Advance(false)), t) < Rank(s, t)
  {
    var thread := s.threads[t];
    if thread.PushDecide? || thread.PopDecide? {
      RankFallsOnDecide(s, t);
    } else if !thread.Copying() {
      RankFallsOnLoad(s, t);
    }
  }

  /** Thread `t` running alone for up to `n` steps. */
  ghost function Alone(s: State, t: nat, n: nat): (r: State)
    ensures |r.threads| == |s.threads|
    decreases n
  {
    if n == 0 || !Enabled(s, t, Advance(false)) then s
    else
      StepFramed(s, t, Advance(false));
      Alone(Step(s, t, Advance(false)), t, n - 1)
  }

  lemma {:induction false} AloneReturns(s: State, t: nat, n: nat)
    requires Inv(s) && t < |s.threads| && n >= Rank(s, t)
    ensures Alone(s, t, n).threads[t].Resting()
    decreases n
  {
    if !s.threads[t].Resting() {
      AlwaysEnabled(s, t, false);
      RankFalls(s, t);
      StepInv(s, t, Advance(false));
      StepFramed(s, t, Advance(false));
      var s' := Step(s, t, Advance(false));
      assert Alone(s, t, n) == Alone(s', t, n - 1);
      AloneReturns(s', t, n - 1);
    }
  }

  /** From every reachable state a thread left alone returns within `elementSize + 7` steps. */
  lemma AloneReturnsSoon(s: State, t: nat)
    requires Inv(s) && t < |s.threads|
    ensures Alone(s, t, s.elementSize + 7).threads[t].Resting()
  {
    AloneReturns(s, t, s.elementSize + 7);
  }

  // ----- capacity one

  /** No reachable state of a queue of this capacity holds more claimed tickets than slots. */
  ghost predicate NeverOverfull(capacity: nat) {
    forall s :: Reachable(s) && s.Capacity() == capacity ==> s.enqueuePosition <= s.dequeuePosition + capacity
  }

  /** A push by thread 0 that meets no obstacle, on one-byte items. */
  lemma UnobstructedPush(s: State, item: Item) returns (s': State)
    requires Reachable(s) && s.Formed() && s.elementSize == 1 && |item| == 1 && !s.closed
    requires |s.threads| >= 1 && s.threads[0].Resting()
    requires |s.data[s.SlotOf(s.enqueuePosition)]| == 1
    requires s.sequence[s.SlotOf(s.enqueuePosition)] == s.enqueuePosition
    ensures Reachable(s') && !s'.closed
    ensures s'.threads == s.threads[0 := PushReturned(Some(s.enqueuePosition))]
    ensures s'.elementSize == 1
    ensures s'.enqueuePosition == s.enqueuePosition + 1 && s'.dequeuePosition == s.dequeuePosition
    ensures s'.pushed == s.pushed + [item]
    ensures s'.sequence == s.sequence[s.SlotOf(s.enqueuePosition) := s.enqueuePosition + 1]
    ensures s'.data == s.data[s.SlotOf(s.enqueuePosition) := item]
  {
    hide Reachable;
    var e := s.enqueuePosition;
    var decided := s.At(0, PushDecide(item, e, e, e, 0));
    UpToDecision(s, item);
    ReachableStep(decided, 0, Advance(false));
    var claimed := PushDecided(decided, 0, false);
    s' := FromClaim(claimed, item, e);
  }

  lemma UpToDecision(s: State, item: Item)
    requires Reachable(s) && s.Formed() && |item| == s.elementSize && !s.closed
    requires |s.threads| >= 1 && s.threads[0].Resting()
    requires s.sequence[s.SlotOf(s.enqueuePosition)] == s.enqueuePosition
    ensures Reachable(s.At(0, PushDecide(item, s.enqueuePosition, s.enqueuePosition, s.enqueuePosition, 0)))
  {
    hide Reachable;
    var e := s.enqueuePosition;
    ReachableStep(s, 0, BeginPush(item));
    var a := s.At(0, PushStart(item));
    ReachableStep(a, 0, Advance(false));
    var b := a.At(0, PushLoadPosition(item, e, 0));
    ReachableStep(b, 0, Advance(false));
    var c := b.At(0, PushLoadSequence(item, e, e, 0));
    ReachableStep(c, 0, Advance(false));
    assert c.At(0, PushDecide(item, e, e, e, 0)) == s.At(0, PushDecide(item, e, e, e, 0));
  }

  lemma FromClaim(s: State, item: Item, e: nat) returns (s': State)
    requires Reachable(s) && s.Formed() && s.elementSize == 1 && |item| == 1
    requires |s.threads| >= 1 && s.threads[0] == PushCopy(item, e, 0)
    requires |s.data[s.SlotOf(e)]| == 1
    ensures Reachable(s')
    ensures s' == s.(threads := s.threads[0 := PushReturned(Some(e))],
                     data := s.data[s.SlotOf(e) := item],
                     sequence := s.sequence[s.SlotOf(e) := e + 1],
                     writers := s.writers - {e})
  {
    hide Reachable;
    ReachableStep(s, 0, Advance(false));
    var copied := ByteIn(s, 0);
    assert s.data[s.SlotOf(e)][0 := item[0]] == item;
    ReachableStep(copied, 0, Advance(false));
    s' := Publish(copied, 0);
  }

  /**
   * On a queue of capacity one, `t + 1` and `t + capacity` coincide: a published slot looks
   * free to the next push, which overwrites the item that nobody has popped.
   */
  lemma CapacityOneOverwrites(first: Item, second: Item) returns (s: State)
    requires |first| == |second| == 1
    ensures Reachable(s) && s.Capacity() == 1 && s.pushed == [first, second]
    ensures s.enqueuePosition == 2 && s.dequeuePosition == 0 && s.data == [second] && s.sequence == [2]
    ensures |s.threads| == 1 && s.threads[0] == PushReturned(Some(1))
  {
    hide Reachable;
    var start := State(1, 0, 0, false, [0], [first], [Idle], [], map[], map[], map[]);
    ReachableStart(start);
    assert Slot(0, 1) == Slot(1, 1) == 0;
    var one := UnobstructedPush(start, first);
    s := UnobstructedPush(one, second);
  }

  /** Two slots are exactly what the queue needs. */
  lemma OverfullExactlyAtOne(capacity: nat)
    requires capacity >= 1
    ensures NeverOverfull(capacity) <==> capacity >= 2
  {
    if capacity >= 2 {
      forall s | Reachable(s) && s.Capacity() == capacity ensures s.enqueuePosition <= s.dequeuePosition + capacity {
        ReachableInv(s);
      }
    } else {
      var s := CapacityOneOverwrites([1], [2]);
    }
  }
}
