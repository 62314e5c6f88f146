/**
 * The queue object with its real fields, and the loops of push and pop as the program
 * runs them, under arbitrary interference by other threads.
 *
 * `env[n]` lists the steps that other threads take just before the n-th shared access of
 * the call, and `weak[n]` says whether a compare-and-swap made there fails spuriously.
 */
module Queue {
  import opened Options
  import opened QueueProtocol
  import opened QueueInvariant
  import opened QueueTheorems
  import opened QueueBuffer
  import Words

  type Interference = seq<seq<(nat, Move)>>

  function TotalMoves(env: Interference, n: nat): nat
    decreases |env| - n
  {
    if n < |env| then |env[n]| + TotalMoves(env, n + 1) else 0
  }

  function Turns(env: Interference, n: nat): nat {
    if n < |env| then |env| - n else 0
  }

  predicate Weak(weak: seq<bool>, env: Interference, n: nat) {
    n < |weak| && n < |env| && weak[n]
  }

  // ----- runs

  /** What up to `moves` steps of threads other than `t` can do. */
  ghost predicate Drift(s: State, s': State, t: nat, moves: nat)
    requires t < |s.threads|
  {
    && Follows(s, s')
    && |s'.threads| == |s.threads| && s'.threads[t] == s.threads[t]
    && s'.Capacity() == s.Capacity() && s'.elementSize == s.elementSize
    && (s.closed ==> s'.closed)
    && s.enqueuePosition <= s'.enqueuePosition <= s.enqueuePosition + moves
    && s.dequeuePosition <= s'.dequeuePosition
    && s.pushed <= s'.pushed
    && (moves == 0 ==> s' == s)
  }

  lemma DriftStep(s: State, s': State, t: nat, moves: nat, u: nat, m: Move)
    requires t < |s.threads| && Drift(s, s', t, moves) && u != t && Enabled(s', u, m)
    ensures Drift(s, Step(s', u, m), t, moves + 1) && Step(s', u, m).Formed()
  {
    FollowsStep(s, s', u, m);
    StepFramed(s', u, m);
    StepAdds(s', u, m);
  }

  /** The steps listed for one point: those of other threads that are possible when their turn comes. */
  function Others(s: State, t: nat, moves: seq<(nat, Move)>): State {
    if moves == [] then s
    else
      var before := Others(s, t, moves[..|moves| - 1]);
      var (u, m) := moves[|moves| - 1];
      if u != t && Enabled(before, u, m) then Step(before, u, m) else before
  }

  lemma OthersNone(s: State, t: nat)
    ensures Others(s, t, []) == s
  {
  }

  lemma OthersNext(s: State, t: nat, moves: seq<(nat, Move)>, i: nat)
    requires i < |moves|
    ensures var before, (u, m) := Others(s, t, moves[..i]), moves[i];
            Others(s, t, moves[..i + 1]) == if u != t && Enabled(before, u, m) then Step(before, u, m) else before
  {
    assert moves[..i + 1][..i] == moves[..i];
  }

  lemma StepAdds(s: State, t: nat, m: Move)
    requires Enabled(s, t, m)
    ensures Step(s, t, m).enqueuePosition <= s.enqueuePosition + 1
  {
    if m.Advance? && s.threads[t].PushDecide? {
    } else {
      StepFramed(s, t, m);
    }
  }

  // ----- the caller's view of its own call

  /** What has happened since the call began in state `s0`. */
  ghost predicate InCall(s0: State, s: State) {
    && Follows(s0, s)
    && |s.threads| == |s0.threads| && s.Capacity() == s0.Capacity()
    && s0.enqueuePosition <= s.enqueuePosition && s0.dequeuePosition <= s.dequeuePosition
    && s0.pushed <= s.pushed
  }

  lemma CallDrifts(s0: State, s: State, s': State, t: nat, moves: nat)
    requires InCall(s0, s) && t < |s.threads| && Drift(s, s', t, moves)
    ensures InCall(s0, s')
  {
    FollowsChain(s0, s, s');
  }

  lemma CallSteps(s0: State, s: State, t: nat, m: Move)
    requires InCall(s0, s) && Enabled(s, t, m)
    ensures InCall(s0, Step(s, t, m)) && t < |Step(s, t, m).threads|
    ensures Step(s, t, m).enqueuePosition <= s.enqueuePosition + 1
    ensures !s.threads[t].PushDecide? ==> Step(s, t, m).enqueuePosition == s.enqueuePosition
  {
    FollowsStep(s0, s, t, m);
    StepFramed(s, t, m);
    StepAdds(s, t, m);
  }

  /** On the way from `s0` to `s` the queue was closed or had no room for the next ticket. */
  ghost predicate PushExcused(s0: State, s: State) {
    exists mid :: Follows(s0, mid) && Follows(mid, s) && (mid.closed || !Room(mid))
  }

  /** On the way from `s0` to `s` the next ticket was not ready. */
  ghost predicate PopExcused(s0: State, s: State) {
    exists mid :: Follows(s0, mid) && Follows(mid, s) && !Ready(mid)
  }

  lemma ExcusedNow(s0: State, s: State)
    requires Follows(s0, s)
    ensures s.closed || !Room(s) ==> PushExcused(s0, s)
    ensures !Ready(s) ==> PopExcused(s0, s)
  {
    hide Follows, Room, Ready;
    FollowsSelf(s);
  }

  lemma ExcusedStays(s0: State, s: State, t: nat, m: Move)
    requires Enabled(s, t, m)
    ensures PushExcused(s0, s) ==> PushExcused(s0, Step(s, t, m))
    ensures PopExcused(s0, s) ==> PopExcused(s0, Step(s, t, m))
  {
    hide Follows, Room, Ready, Step;
    if PushExcused(s0, s) {
      var mid :| Follows(s0, mid) && Follows(mid, s) && (mid.closed || !Room(mid));
      FollowsStep(mid, s, t, m);
    }
    if PopExcused(s0, s) {
      var mid :| Follows(s0, mid) && Follows(mid, s) && !Ready(mid);
      FollowsStep(mid, s, t, m);
    }
  }

  /** A sequence that turns its thread away shows that the queue has no room, or nothing ready. */
  lemma TurnedAwayNow(s0: State, s: State, t: nat)
    requires Inv(s) && Follows(s0, s) && t < |s.threads|
    ensures s.threads[t].PushLoadSequence? && s.sequence[s.SlotOf(s.threads[t].position)] < s.threads[t].position ==>
              PushExcused(s0, s)
    ensures s.threads[t].PopLoadSequence? && s.sequence[s.SlotOf(s.threads[t].position)] < s.threads[t].position + 1 ==>
              PopExcused(s0, s)
  {
    hide Inv, Follows, PushExcused, PopExcused, Room, Ready;
    ExcusedNow(s0, s);
    if s.threads[t].PushLoadSequence? {
      PushRefusalJustified(s, t);
    }
    if s.threads[t].PopLoadSequence? {
      PopRefusalJustified(s, t);
    }
  }

  /** No ticket was claimed and nothing was closed in between. */
  ghost predicate SameContents(s: State, s': State) {
    && s'.pushed == s.pushed && s'.enqueuePosition == s.enqueuePosition
    && s'.dequeuePosition == s.dequeuePosition && s'.closed == s.closed && s'.Capacity() == s.Capacity()
  }

  /** The copy steps of a call claim nothing and keep the invariant. */
  lemma ByteInInCall(s0: State, s: State, t: nat)
    requires Inv(s) && InCall(s0, s) && t < |s.threads| && s.threads[t].PushCopy? && s.threads[t].copied < s.elementSize
    ensures CopyInBounds(s, s.threads[t])
    ensures Inv(ByteIn(s, t)) && InCall(s0, ByteIn(s, t)) && SameContents(s, ByteIn(s, t))
  {
    AlwaysEnabled(s, t, false);
    StepInv(s, t, Advance(false));
    CallSteps(s0, s, t, Advance(false));
  }

  lemma PublishInCall(s0: State, s: State, t: nat)
    requires Inv(s) && InCall(s0, s) && t < |s.threads| && s.threads[t].PushCopy?
        && s.threads[t].copied == s.elementSize
    ensures CopyInBounds(s, s.threads[t])
    ensures Inv(Publish(s, t)) && InCall(s0, Publish(s, t)) && SameContents(s, Publish(s, t))
  {
    AlwaysEnabled(s, t, false);
    StepInv(s, t, Advance(false));
    CallSteps(s0, s, t, Advance(false));
  }

  lemma ByteOutInCall(s0: State, s: State, t: nat)
    requires Inv(s) && InCall(s0, s) && t < |s.threads| && s.threads[t].PopCopy? && |s.threads[t].out| < s.elementSize
    ensures CopyInBounds(s, s.threads[t])
    ensures Inv(ByteOut(s, t)) && InCall(s0, ByteOut(s, t)) && SameContents(s, ByteOut(s, t))
  {
    AlwaysEnabled(s, t, false);
    StepInv(s, t, Advance(false));
    CallSteps(s0, s, t, Advance(false));
  }

  lemma ReleaseInCall(s0: State, s: State, t: nat)
    requires Inv(s) && InCall(s0, s) && t < |s.threads| && s.threads[t].PopCopy? && |s.threads[t].out| == s.elementSize
    ensures CopyInBounds(s, s.threads[t])
    ensures Inv(Release(s, t)) && InCall(s0, Release(s, t)) && SameContents(s, Release(s, t))
  {
    AlwaysEnabled(s, t, false);
    StepInv(s, t, Advance(false));
    CallSteps(s0, s, t, Advance(false));
  }

  /** Counters stay in the range where 64-bit signed differences are exact. */
  ghost predicate InRange(s: State, env: Interference, n: nat, own: nat, limit: nat) {
    s.enqueuePosition + TotalMoves(env, n) + own <= limit && limit + s.Capacity() < Words.TWO63
  }

  /** The most tickets there can be after a call that claims `own` of them. */
  function Limit(s: State, env: Interference, own: nat): nat {
    s.enqueuePosition + TotalMoves(env, 0) + own
  }

  /** The next push ticket's slot tells whether there is room. */
  lemma RoomShows(s: State)
    requires Inv(s)
    ensures s.dequeuePosition <= s.enqueuePosition
    ensures s.sequence[s.SlotOf(s.enqueuePosition)] <= s.enqueuePosition
    ensures s.sequence[s.SlotOf(s.enqueuePosition)] == s.enqueuePosition <==> Room(s)
  {
    NextPushSlot(s);
  }

  /** The next pop ticket's slot tells whether an item is ready. */
  lemma ReadyShows(s: State)
    requires Inv(s)
    ensures s.dequeuePosition <= s.enqueuePosition && s.Capacity() >= 2
    ensures s.sequence[s.SlotOf(s.dequeuePosition)] <= s.dequeuePosition + 1
    ensures s.sequence[s.SlotOf(s.dequeuePosition)] == s.dequeuePosition + 1 <==> Ready(s)
  {
    NextPopSlot(s);
  }

  lemma PopPositionBehind(s: State, t: nat)
    requires Inv(s) && t < |s.threads| && (s.threads[t].PopLoadSequence? || s.threads[t].PopDecide?)
    ensures s.threads[t].position <= s.dequeuePosition <= s.enqueuePosition
  {
    assert ThreadOk(s, t);
  }

  /** A pusher's position never runs ahead. */
  lemma PushPositionBehind(s: State, t: nat)
    requires Inv(s) && t < |s.threads| && (s.threads[t].PushLoadSequence? || s.threads[t].PushDecide?)
    ensures s.threads[t].position <= s.enqueuePosition
  {
    assert ThreadOk(s, t);
  }

  lemma LoadedBound(s: State, position: nat)
    requires Inv(s) && position <= s.enqueuePosition
    ensures s.sequence[s.SlotOf(position)] <= s.dequeuePosition + s.Capacity()
  {
    var v := position;
    if position < s.dequeuePosition {
      v := LapInto(position, s.dequeuePosition, s.Capacity());
    } else if position == s.dequeuePosition + s.Capacity() {
      SlotNextLap(s.dequeuePosition, s.Capacity());
      v := s.dequeuePosition;
    }
    if v < s.enqueuePosition {
      assert HeldTicket(s, v);
    } else {
      assert FreeTicket(s, v);
    }
  }

  /** The thread stands where only its own locals can change: no copy, no compare-and-swap to make. */
  ghost predicate LocalNext(thread: Thread) {
    && !thread.Resting() && !thread.Copying()
    && (thread.PushDecide? ==> thread.loaded != thread.position)
    && (thread.PopDecide? ==> thread.loaded != thread.position + 1)
  }

  /** Where such a step leads. */
  function LocalTurn(s: State, thread: Thread): Thread
    requires s.Formed()
  {
    match thread
    case PushDecide(item, position, loaded, base, retries) =>
      if loaded < position then PushReturned(None) else PushLoadPosition(item, base, retries + 1)
    case PopDecide(position, loaded, base, retries) =>
      if loaded < position + 1 then PopReturned(None, []) else PopLoadPosition(base, retries + 1)
    case _ => Loaded(s, thread)
  }

  lemma TickIsLocal(s: State, t: nat)
    requires Enabled(s, t, Advance(false)) && LocalNext(s.threads[t])
    ensures Step(s, t, Advance(false)) == s.At(t, LocalTurn(s, s.threads[t]))
  {
  }

  /** Stride and size of the block, in 64-bit words. */
  method Layout(elementSize: nat, capacity: nat) returns (stride: nat, size: nat)
    ensures stride == Stride(elementSize) && size == BufferBytes(capacity, stride)
  {
    stride := Words.AlignUp((HEADER_BYTES + elementSize) % Words.TWO64, CACHELINE_BYTES);
    size := (stride * capacity) % Words.TWO64;
  }

  class MpmcQueue {
    var enqueuePosition: nat
    var dequeuePosition: nat
    var closed: bool
    const capacity: nat
    const capacityMask: nat
    const elementSize: nat
    const slotStrideBytes: nat
    const bufferBytes: nat          // what was asked for, a 64-bit word
    const sequence: array<nat>      // the header word of each slot
    const slots: array2<bv8>        // one row of slotStrideBytes bytes per slot
    ghost const order: nat          // capacity is 2^order
    var model: State                // where every thread stands, with the auxiliary history

    /** The fields represent the model. */
    ghost predicate Represents()
      reads this, sequence, slots
    {
      && capacity == Words.Pow2(order) == model.Capacity() == sequence.Length == slots.Length0
      && model.Formed()
      && capacityMask == capacity - 1
      && elementSize == model.elementSize && HEADER_BYTES + elementSize <= slotStrideBytes == slots.Length1
      && enqueuePosition == model.enqueuePosition && dequeuePosition == model.dequeuePosition
      && closed == model.closed
      && sequence[..] == model.sequence
      && (forall i :: 0 <= i < capacity ==> |model.data[i]| == elementSize)
      && (forall i, j :: 0 <= i < capacity && 0 <= j < elementSize ==> slots[i, HEADER_BYTES + j] == model.data[i][j])
    }

    ghost predicate Valid()
      reads this, sequence, slots
    {
      Represents() && Inv(model)
    }

    constructor Fresh(elementSize: nat, capacity: nat, stride: nat, size: nat, threadCount: nat, ghost order: nat)
      requires elementSize >= 1 && capacity == Words.Pow2(order) && HEADER_BYTES + elementSize <= stride
      requires size == stride * capacity < Words.TWO64
      ensures Represents() && Initial(model) && fresh(this) && fresh(sequence) && fresh(slots)
      ensures this.capacity == capacity && this.elementSize == elementSize && this.slotStrideBytes == stride
      ensures bufferBytes == size
      ensures |model.threads| == threadCount
    {
      this.elementSize := elementSize;
      this.capacity := capacity;
      this.capacityMask := capacity - 1;
      this.slotStrideBytes := stride;
      this.bufferBytes := size;
      this.order := order;
      enqueuePosition, dequeuePosition, closed := 0, 0, false;
      sequence := new nat[capacity];
      slots := new bv8[capacity, stride]((i, j) => 0);
      model := State(elementSize, 0, 0, false,
                     seq(capacity, i => i),
                     seq(capacity, i => seq(elementSize, j => 0)),
                     seq(threadCount, i => Idle), [], map[], map[], map[]);
      new;
      for slotIndex := 0 to capacity
        modifies sequence
        invariant forall i :: 0 <= i < slotIndex ==> sequence[i] == i
      {
        Words.MaskIsMod(slotIndex, order);
        SlotIsMod(slotIndex, capacity);
        sequence[Words.BitAnd(slotIndex, capacityMask)] := slotIndex;
      }
    }

    /**
     * Create: refuses a zero size or a failed allocation, rounds the capacity up to the least
     * power of two, asks for a block in which every slot fits, and for two slots or more
     * establishes the invariant. Requests whose rounding never ends or whose size wraps are the
     * caller's to avoid.
     */
    static method Create(elementSize: nat, capacity: nat, threadCount: nat, queueAllocated: bool, bufferAllocated: bool)
      returns (queue: MpmcQueue?)
      requires elementSize < Words.TWO64
      requires elementSize != 0 && capacity != 0 ==> capacity <= Words.TWO63
      requires elementSize != 0 && capacity != 0 && queueAllocated && bufferAllocated ==>
                 Sized(elementSize, Words.LeastPow2(capacity))
      ensures queue != null <==> elementSize != 0 && capacity != 0 && queueAllocated && bufferAllocated
      ensures queue != null ==>
                && fresh(queue) && queue.Represents() && Initial(queue.model)
                && |queue.model.threads| == threadCount && queue.elementSize == elementSize
                && queue.capacity == Words.LeastPow2(capacity)
                && queue.slotStrideBytes == IdealStride(elementSize)
                && queue.bufferBytes == BufferBytes(queue.capacity, queue.slotStrideBytes)
                && SlotsFit(elementSize, queue.capacity, queue.slotStrideBytes)
                && (queue.Valid() <==> capacity >= 2)
    {
      if elementSize == 0 || capacity == 0 || !queueAllocated {
        return null;
      }
      hide Words.AlignUp, Words.LeastPow2, Stride, IdealStride, SlotsFit, BufferBytes, Sized, Inv;
      var effective := Words.EffectiveCapacity(capacity);
      var stride, size := Layout(elementSize, effective);
      if !bufferAllocated {
        return null;
      }
      ghost var k := Words.LeastPow2Is(capacity);
      LayoutFits(elementSize, effective, k);
      queue := new MpmcQueue.Fresh(elementSize, effective, stride, size, threadCount, k);
      if effective >= 2 {
        InitialInv(queue.model);
      } else {
        InvCapacity(queue.model);
      }
    }

    /** Copies the model into the fields after other threads have moved. */
    method Refresh()
      requires model.Formed() && Inv(model)
      requires capacity == Words.Pow2(order) == model.Capacity() == sequence.Length == slots.Length0
      requires capacityMask == capacity - 1
      requires elementSize == model.elementSize && HEADER_BYTES + elementSize <= slotStrideBytes == slots.Length1
      modifies this, sequence, slots
      ensures Valid() && model == old(model)
    {
      enqueuePosition, dequeuePosition, closed := model.enqueuePosition, model.dequeuePosition, model.closed;
      forall i | 0 <= i < sequence.Length {
        sequence[i] := model.sequence[i];
      }
      forall i, j | 0 <= i < slots.Length0 && HEADER_BYTES <= j < HEADER_BYTES + elementSize {
        slots[i, j] := model.data[i][j - HEADER_BYTES];
      }
    }

    /** Other threads take the steps listed for this point; steps that are not possible are skipped. */
    method Yield(t: nat, env: Interference, n: nat)
      requires Valid() && t < |model.threads|
      modifies this, sequence, slots
      ensures Valid() && t < |model.threads|
      ensures Drift(old(model), model, t, if n < |env| then |env[n]| else 0)
      ensures model == Others(old(model), t, if n < |env| then env[n] else [])
    {
      hide Others, Inv, Follows, Step;
      FollowsSelf(model);
      OthersNone(model, t);
      if n < |env| {
        for i := 0 to |env[n]|
          modifies this, sequence, slots
          invariant model.Formed() && Inv(model) && t < |old(model).threads|
          invariant Drift(old(model), model, t, i)
          invariant model == Others(old(model), t, env[n][..i])
        {
          OthersNext(old(model), t, env[n], i);
          var (u, m) := env[n][i];
          if u != t && Enabled(model, u, m) {
            StepInv(model, u, m);
            DriftStep(old(model), model, t, i, u, m);
            model := Step(model, u, m);
          }
        }
        assert env[n][..|env[n]|] == env[n];
        Refresh();
      }
    }

    /** Interference in the middle of a call that began in state `s0`. */
    method Await(t: nat, env: Interference, n: nat, ghost s0: State, ghost own: nat, ghost limit: nat)
      requires Valid() && t < |model.threads| && InCall(s0, model) && InRange(model, env, n, own, limit)
      modifies this, sequence, slots
      ensures Valid() && t < |model.threads| && InCall(s0, model) && InRange(model, env, n + 1, own, limit)
      ensures model == Others(old(model), t, if n < |env| then env[n] else [])
      ensures model.threads[t] == old(model).threads[t]
      ensures old(model).enqueuePosition <= model.enqueuePosition
      ensures old(model).dequeuePosition <= model.dequeuePosition
      ensures old(model).pushed <= model.pushed
      ensures env == [] || n >= |env| ==> model == old(model)
    {
      hide Others;
      ghost var before := model;
      Yield(t, env, n);
      CallDrifts(s0, before, model, t, if n < |env| then |env[n]| else 0);
    }

    /** Thread `t`'s own step, one that writes nothing shared. */
    method Tick(t: nat, ghost s0: State)
      requires Valid() && t < |model.threads| && LocalNext(model.threads[t]) && InCall(s0, model)
      modifies this`model
      ensures Valid() && InCall(s0, model)
      ensures model == old(model).At(t, LocalTurn(old(model), old(model).threads[t]))
      ensures Rank(model, t) < Rank(old(model), t)
      ensures PushExcused(s0, old(model)) ==> PushExcused(s0, model)
      ensures PopExcused(s0, old(model)) ==> PopExcused(s0, model)
    {
      AlwaysEnabled(model, t, false);
      ExcusedStays(s0, model, t, Advance(false));
      hide PushExcused, PopExcused;
      StepInv(model, t, Advance(false));
      TickIsLocal(model, t);
      RankFalls(model, t);
      CallSteps(s0, model, t, Advance(false));
      model := Step(model, t, Advance(false));
    }

    method Begin(t: nat, m: Move)
      requires Valid() && Enabled(model, t, m) && (m.BeginPush? || m.BeginPop?)
      modifies this`model
      ensures Valid() && model == Step(old(model), t, m) && InCall(old(model), model)
    {
      FollowsSelf(model);
      CallSteps(model, model, t, m);
      StepInv(model, t, m);
      model := Step(model, t, m);
    }

    /** The header word of a position's slot. */
    method LoadHeader(position: nat) returns (word: nat)
      requires Valid() && position <= model.enqueuePosition
      ensures word == model.sequence[model.SlotOf(position)] <= model.dequeuePosition + capacity
    {
      MaskIsSlot(position, capacity, order);
      LoadedBound(model, position);
      word := sequence[Words.BitAnd(position, capacityMask)];
    }

    /** The weak compare-and-swap on the enqueue position. */
    method CompareExchangeEnqueue(t: nat, expected: nat, spurious: bool, ghost s0: State)
      returns (won: bool, observed: nat)
      requires Valid() && t < |model.threads| && model.threads[t].PushDecide?
      requires model.threads[t].position == model.threads[t].loaded == expected
      requires InCall(s0, model)
      modifies this`model, this`enqueuePosition
      ensures Valid() && InCall(s0, model) && model == PushDecided(old(model), t, spurious)
      ensures !spurious ==> Rank(model, t) < Rank(old(model), t)
      ensures won == (old(enqueuePosition) == expected && !spurious)
      ensures !won ==> observed == enqueuePosition == old(enqueuePosition)
    {
      hide Inv, Follows, TotalMoves, Rank;
      PushDecidedInv(model, t, spurious);
      AlwaysEnabled(model, t, spurious);
      CallSteps(s0, model, t, Advance(spurious));
      RankFallsOnDecide(model, t);
      won := enqueuePosition == expected && !spurious;
      observed := enqueuePosition;
      if won {
        enqueuePosition := expected + 1;
      }
      model := PushDecided(model, t, spurious);
    }

    method CompareExchangeDequeue(t: nat, expected: nat, spurious: bool, ghost s0: State)
      returns (won: bool, observed: nat)
      requires Valid() && t < |model.threads| && model.threads[t].PopDecide?
      requires model.threads[t].position == expected && model.threads[t].loaded == expected + 1
      requires InCall(s0, model)
      modifies this`model, this`dequeuePosition
      ensures Valid() && InCall(s0, model) && model == PopDecided(old(model), t, spurious)
      ensures !spurious ==> Rank(model, t) < Rank(old(model), t)
      ensures won == (old(dequeuePosition) == expected && !spurious)
      ensures !won ==> observed == dequeuePosition == old(dequeuePosition)
    {
      hide Inv, Follows, TotalMoves, Rank;
      PopDecidedInv(model, t, spurious);
      AlwaysEnabled(model, t, spurious);
      CallSteps(s0, model, t, Advance(spurious));
      RankFallsOnDecide(model, t);
      won := dequeuePosition == expected && !spurious;
      observed := dequeuePosition;
      if won {
        dequeuePosition := expected + 1;
      }
      model := PopDecided(model, t, spurious);
    }

    method StoreByte(t: nat, position: nat, item: Item, index: nat, ghost s0: State)
      requires InCall(s0, model)
      requires Valid() && t < |model.threads| && model.threads[t] == PushCopy(item, position, index)
      requires index < elementSize
      modifies this`model, slots
      ensures Valid() && InCall(s0, model) && SameContents(old(model), model) && t < |model.threads|
      ensures model.threads[t] == PushCopy(item, position, index + 1)
    {
      hide Inv, Follows;
      ByteInInCall(s0, model, t);
      MaskIsSlot(position, capacity, order);
      slots[Words.BitAnd(position, capacityMask), HEADER_BYTES + index] := item[index];
      model := ByteIn(model, t);
    }

    method LoadByte(t: nat, position: nat, out: Item, ghost s0: State) returns (byte: bv8)
      requires InCall(s0, model)
      requires Valid() && t < |model.threads| && model.threads[t] == PopCopy(position, out)
      requires |out| < elementSize
      modifies this`model
      ensures Valid() && InCall(s0, model) && SameContents(old(model), model) && t < |model.threads|
      ensures model.threads[t] == PopCopy(position, out + [byte])
    {
      hide Inv, Follows;
      ByteOutInCall(s0, model, t);
      MaskIsSlot(position, capacity, order);
      byte := slots[Words.BitAnd(position, capacityMask), HEADER_BYTES + |out|];
      model := ByteOut(model, t);
    }

    /** The release store that ends a push. */
    method StorePublished(t: nat, position: nat, ghost s0: State)
      requires InCall(s0, model)
      requires Valid() && t < |model.threads| && model.threads[t].PushCopy?
      requires model.threads[t].position == position && model.threads[t].copied == elementSize
      modifies this`model, sequence
      ensures Valid() && InCall(s0, model) && SameContents(old(model), model) && t < |model.threads|
      ensures model.threads[t] == PushReturned(Some(position))
    {
      hide Inv, Follows;
      PublishInCall(s0, model, t);
      MaskIsSlot(position, capacity, order);
      sequence[Words.BitAnd(position, capacityMask)] := position + 1;
      model := Publish(model, t);
    }

    /** The release store that ends a pop. */
    method StoreReleased(t: nat, position: nat, out: Item, ghost s0: State)
      requires InCall(s0, model)
      requires Valid() && t < |model.threads| && model.threads[t] == PopCopy(position, out) && |out| == elementSize
      modifies this`model, sequence
      ensures Valid() && InCall(s0, model) && SameContents(old(model), model) && t < |model.threads|
      ensures model.threads[t] == PopReturned(Some(position), out)
    {
      hide Inv, Follows;
      ReleaseInCall(s0, model, t);
      MaskIsSlot(position, capacity, order);
      sequence[Words.BitAnd(position, capacityMask)] := position + capacity;
      model := Release(model, t);
    }

    /** Copies the item in, byte by byte, and publishes it. */
    method FinishPush(t: nat, position: nat, item: Item, env: Interference, start: nat, ghost s0: State, ghost limit: nat)
      requires Valid() && t < |model.threads| && model.threads[t] == PushCopy(item, position, 0)
      requires |item| == elementSize && InCall(s0, model) && InRange(model, env, start, 0, limit)
      modifies this, sequence, slots
      ensures Valid() && InCall(s0, model) && t < |model.threads|
      ensures model.threads[t] == PushReturned(Some(position))
      ensures model.enqueuePosition <= limit
      ensures old(model).pushed <= model.pushed && |model.pushed| == model.enqueuePosition
      ensures env == [] ==> SameContents(old(model), model)
    {
      hide Inv, Follows, TotalMoves, Rank;
      var n: nat := start;
      for index := 0 to elementSize
        modifies this, sequence, slots
        invariant Valid() && InCall(s0, model) && t < |model.threads| && InRange(model, env, n, 0, limit)
        invariant model.threads[t] == PushCopy(item, position, index)
        invariant old(model).pushed <= model.pushed
        invariant env == [] ==> SameContents(old(model), model)
      {
        Await(t, env, n, s0, 0, limit);
        n := n + 1;
        StoreByte(t, position, item, index, s0);
      }
      Await(t, env, n, s0, 0, limit);
      StorePublished(t, position, s0);
      TicketsCounted(model);
    }

    /** Copies the item out, byte by byte, and releases the slot. */
    method FinishPop(t: nat, position: nat, env: Interference, start: nat, ghost s0: State, ghost limit: nat)
      returns (out: Item)
      requires Valid() && t < |model.threads| && model.threads[t] == PopCopy(position, [])
      requires InCall(s0, model) && InRange(model, env, start, 0, limit)
      modifies this, sequence, slots
      ensures Valid() && InCall(s0, model) && t < |model.threads|
      ensures model.threads[t] == PopReturned(Some(position), out)
      ensures model.enqueuePosition <= limit
      ensures old(model).pushed <= model.pushed && |model.pushed| == model.enqueuePosition
      ensures env == [] ==> SameContents(old(model), model)
    {
      hide Inv, Follows, TotalMoves, Rank;
      var n: nat := start;
      out := [];
      for index := 0 to elementSize
        modifies this, sequence, slots
        invariant Valid() && InCall(s0, model) && t < |model.threads| && InRange(model, env, n, 0, limit)
        invariant |out| == index && model.threads[t] == PopCopy(position, out)
        invariant old(model).pushed <= model.pushed
        invariant env == [] ==> SameContents(old(model), model)
      {
        Await(t, env, n, s0, 0, limit);
        n := n + 1;
        var byte := LoadByte(t, position, out, s0);
        out := out + [byte];
      }
      Await(t, env, n, s0, 0, limit);
      StoreReleased(t, position, out, s0);
      TicketsCounted(model);
    }

    /** Push up to the loop: the closed flag, then the enqueue position. */
    method EnterPush(t: nat, item: Item, env: Interference, ghost s0: State, ghost limit: nat)
      returns (isClosed: bool, position: nat)
      requires Valid() && s0 == model && t < |model.threads| && model.threads[t].Resting() && |item| == elementSize
      requires InRange(model, env, 0, 1, limit)
      modifies this, sequence, slots
      ensures Valid() && InCall(s0, model) && t < |model.threads|
      ensures isClosed ==> model.threads[t] == PushReturned(None) && PushExcused(s0, model)
      ensures model.enqueuePosition <= limit
      ensures !isClosed ==> InRange(model, env, 2, 1, limit)
      ensures !isClosed ==> model.threads[t].PushLoadSequence? && model.threads[t].item == item
                            && model.threads[t].position == position
                                && s0.enqueuePosition <= position <= model.enqueuePosition
      ensures env == [] ==> isClosed == s0.closed && model == s0.At(t, model.threads[t])
                            && (!isClosed ==> position == model.enqueuePosition)
    {
      hide Inv, Follows, TotalMoves, Rank, PushExcused, PopExcused;
      Begin(t, BeginPush(item));
      Await(t, env, 0, s0, 1, limit);
      isClosed, position := closed, 0;
      ExcusedNow(s0, model);
      Tick(t, s0);
      if !isClosed {
        Await(t, env, 1, s0, 1, limit);
        position := enqueuePosition;
        Tick(t, s0);
      }
    }

    /** The sequence load of one turn of push. */
    method PushLook(t: nat, position: nat, env: Interference, n: nat, ghost s0: State, ghost limit: nat)
      returns (loaded: nat)
      requires Valid() && InCall(s0, model) && t < |model.threads| && InRange(model, env, n, 1, limit)
      requires model.threads[t].PushLoadSequence? && model.threads[t].position == position
      modifies this, sequence, slots
      ensures Valid() && InCall(s0, model) && t < |model.threads| && InRange(model, env, n + 1, 1, limit)
      ensures model.threads[t].PushDecide? && model.threads[t].item == old(model).threads[t].item
      ensures model.threads[t].position == position <= model.enqueuePosition
      ensures model.threads[t].loaded == loaded < Words.TWO63
      ensures loaded < position ==> PushExcused(s0, model)
      ensures n >= |env| ==> Rank(model, t) < Rank(old(model), t)
      ensures env == [] ==> model == old(model).At(t, model.threads[t])
      ensures env == [] && position == model.enqueuePosition ==>
                loaded <= position && (loaded == position <==> Room(model))
    {
      hide Inv, Follows, TotalMoves, Rank, ThreadOk, PushExcused, PopExcused;
      PushPositionBehind(model, t);
      Await(t, env, n, s0, 1, limit);
      loaded := LoadHeader(position);
      TurnedAwayNow(s0, model, t);
      RoomShows(model);
      Tick(t, s0);
    }

    /** The compare-and-swap of one turn of push. */
    method PushContend(t: nat, position: nat, env: Interference, n: nat, spurious: bool, ghost s0: State, ghost limit: nat)
      returns (won: bool, observed: nat)
      requires Valid() && InCall(s0, model) && t < |model.threads| && InRange(model, env, n, 1, limit)
      requires model.threads[t].PushDecide? && model.threads[t].position == model.threads[t].loaded == position
      modifies this, sequence, slots
      ensures Valid() && InCall(s0, model) && t < |model.threads|
      ensures won ==> InRange(model, env, n + 1, 0, limit)
                      && model.threads[t] == PushCopy(old(model).threads[t].item, position, 0)
                      && position < model.enqueuePosition == |model.pushed|
                      && model.pushed[position] == old(model).threads[t].item
      ensures !won ==> InRange(model, env, n + 1, 1, limit)
                       && model.threads[t].PushLoadSequence? && model.threads[t].item == old(model).threads[t].item
                       && position <= model.threads[t].position == observed <= model.enqueuePosition
      ensures n >= |env| && !spurious ==> Rank(model, t) < Rank(old(model), t)
      ensures env == [] && !spurious ==> won == (position == old(model).enqueuePosition)
      ensures env == [] && won ==> model.pushed == old(model).pushed + [old(model).threads[t].item]
                                   && model.dequeuePosition == old(model).dequeuePosition
                                       && model.closed == old(model).closed
    {
      hide Follows, TotalMoves, Rank, Room;
      assert ThreadOk(model, t);
      Await(t, env, n, s0, 1, limit);
      won, observed := CompareExchangeEnqueue(t, position, spurious, s0);
    }

    /** The reload of the position after a turn that found the slot ahead. */
    method PushReload(t: nat, env: Interference, n: nat, ghost s0: State, ghost limit: nat) returns (position: nat)
      requires Valid() && InCall(s0, model) && t < |model.threads| && InRange(model, env, n, 1, limit)
      requires model.threads[t].PushDecide? && model.threads[t].loaded > model.threads[t].position
      modifies this, sequence, slots
      ensures Valid() && InCall(s0, model) && t < |model.threads| && InRange(model, env, n + 1, 1, limit)
      ensures model.threads[t].PushLoadSequence? && model.threads[t].item == old(model).threads[t].item
      ensures old(model).enqueuePosition <= model.threads[t].position == position <= model.enqueuePosition
      ensures n >= |env| ==> Rank(model, t) < Rank(old(model), t)
    {
      hide Inv, Follows, TotalMoves, Rank, PushExcused, PopExcused;
      Tick(t, s0);
      Await(t, env, n, s0, 1, limit);
      position := enqueuePosition;
      Tick(t, s0);
    }

    /** Push up to its successful compare-and-swap, if it gets that far. */
    method ClaimPush(t: nat, item: Item, env: Interference, weak: seq<bool>, ghost s0: State, ghost limit: nat)
      returns (claimed: Option<nat>, n: nat)
      requires Valid() && s0 == model && t < |model.threads| && model.threads[t].Resting() && |item| == elementSize
      requires InRange(model, env, 0, 1, limit)
      modifies this, sequence, slots
      ensures Valid() && InCall(s0, model) && t < |model.threads|
      ensures claimed.None? ==> model.threads[t] == PushReturned(None) && PushExcused(s0, model)
      ensures model.enqueuePosition <= limit
      ensures claimed.Some? ==>
                && InRange(model, env, n, 0, limit) && model.threads[t] == PushCopy(item, claimed.value, 0)
                && s0.enqueuePosition <= claimed.value < model.enqueuePosition == |model.pushed|
                && model.pushed[claimed.value] == item
      ensures env == [] ==>
                && claimed.Some? == (!s0.closed && Room(s0))
                && model.pushed == s0.pushed + (if claimed.Some? then [item] else [])
                && model.dequeuePosition == s0.dequeuePosition && model.closed == s0.closed
    {
      hide Inv, Follows, TotalMoves, Rank, Words.Difference, PushExcused, PopExcused, InCall;
      var isClosed, position := EnterPush(t, item, env, s0, limit);
      n := 2;
      if isClosed {
        return None, n;
      }
      while true
        modifies this, sequence, slots
        invariant Valid() && InCall(s0, model) && t < |model.threads| && InRange(model, env, n, 1, limit)
        invariant model.threads[t].PushLoadSequence?
        invariant model.threads[t].item == item && model.threads[t].position == position
        invariant s0.enqueuePosition <= position <= model.enqueuePosition
        invariant env == [] ==> model == s0.At(t, model.threads[t]) && position == model.enqueuePosition && !s0.closed
        decreases Turns(env, n), Rank(model, t)
      {
        var loaded := PushLook(t, position, env, n, s0, limit);
        n := n + 1;
        Words.DifferenceExact(loaded, position);
        var difference := Words.Difference(loaded, position);
        if difference == 0 {
          var won, observed := PushContend(t, position, env, n, Weak(weak, env, n), s0, limit);
          n := n + 1;
          if won {
            return Some(position), n;
          }
          position := observed;
        } else if difference < 0 {
          Tick(t, s0);
          return None, n;
        } else {
          position := PushReload(t, env, n, s0, limit);
          n := n + 1;
        }
      }
    }

    /**
     * Push. Whatever the other threads do, the call is a run of the protocol; an accepted item
     * sits under a ticket claimed during the call, and a refusal means that at some moment of the
     * call the queue was closed or had no room; run alone, it is refused exactly then, and
     * otherwise appends the item.
     */
    method Push(t: nat, item: Item, env: Interference, weak: seq<bool>) returns (accepted: bool)
      requires Valid() && t < |model.threads| && model.threads[t].Resting() && |item| == elementSize
      requires InRange(model, env, 0, 1, Limit(model, env, 1))
      modifies this, sequence, slots
      ensures Valid() && InCall(old(model), model) && t < |model.threads|
      ensures model.threads[t].PushReturned? && accepted == model.threads[t].ticket.Some?
      ensures accepted ==>
                var ticket := model.threads[t].ticket.value;
                old(model).enqueuePosition <= ticket < model.enqueuePosition && model.pushed[ticket] == item
      ensures !accepted ==> PushExcused(old(model), model)
      ensures model.enqueuePosition <= Limit(old(model), env, 1)
      ensures env == [] ==>
                && accepted == (!old(model).closed && Room(old(model)))
                && model.pushed == old(model).pushed + (if accepted then [item] else [])
                && model.dequeuePosition == old(model).dequeuePosition && model.closed == old(model).closed
    {
      hide Inv, Follows, TotalMoves, Rank, Room, PushExcused, PopExcused;
      ghost var s0, limit := model, Limit(model, env, 1);
      var claimed, n := ClaimPush(t, item, env, weak, s0, limit);
      if claimed.None? {
        return false;
      }
      FinishPush(t, claimed.value, item, env, n, s0, limit);
      return true;
    }

    /** Pop up to the loop: the dequeue position. */
    method EnterPop(t: nat, env: Interference, ghost s0: State, ghost limit: nat) returns (position: nat)
      requires Valid() && s0 == model && t < |model.threads| && model.threads[t].Resting()
      requires InRange(model, env, 0, 0, limit)
      modifies this, sequence, slots
      ensures Valid() && InCall(s0, model) && t < |model.threads| && InRange(model, env, 1, 0, limit)
      ensures model.threads[t].PopLoadSequence? && model.threads[t].position == position
      ensures s0.dequeuePosition <= position <= model.dequeuePosition
      ensures env == [] ==> model == s0.At(t, model.threads[t]) && position == model.dequeuePosition
    {
      hide Inv, Follows, TotalMoves, Rank;
      Begin(t, BeginPop);
      Await(t, env, 0, s0, 0, limit);
      position := dequeuePosition;
      Tick(t, s0);
    }

    /** The sequence load of one turn of pop. */
    method PopLook(t: nat, position: nat, env: Interference, n: nat, ghost s0: State, ghost limit: nat)
      returns (loaded: nat)
      requires Valid() && InCall(s0, model) && t < |model.threads| && InRange(model, env, n, 0, limit)
      requires model.threads[t].PopLoadSequence? && model.threads[t].position == position
      modifies this, sequence, slots
      ensures Valid() && InCall(s0, model) && t < |model.threads| && InRange(model, env, n + 1, 0, limit)
      ensures model.threads[t].PopDecide?
      ensures model.threads[t].position == position <= model.dequeuePosition
      ensures model.threads[t].loaded == loaded < Words.TWO63 && position + 1 < Words.TWO63
      ensures loaded < position + 1 ==> PopExcused(s0, model)
      ensures n >= |env| ==> Rank(model, t) < Rank(old(model), t)
      ensures env == [] ==> model == old(model).At(t, model.threads[t])
      ensures env == [] && position == model.dequeuePosition ==>
                loaded <= position + 1 && (loaded == position + 1 <==> Ready(model))
    {
      hide Inv, Follows, TotalMoves, Rank, ThreadOk, PushExcused, PopExcused;
      PopPositionBehind(model, t);
      Await(t, env, n, s0, 0, limit);
      loaded := LoadHeader(position);
      TurnedAwayNow(s0, model, t);
      ReadyShows(model);
      Tick(t, s0);
    }

    /** The compare-and-swap of one turn of pop. */
    method PopContend(t: nat, position: nat, env: Interference, n: nat, spurious: bool, ghost s0: State, ghost limit: nat)
      returns (won: bool, observed: nat)
      requires Valid() && InCall(s0, model) && t < |model.threads| && InRange(model, env, n, 0, limit)
      requires model.threads[t].PopDecide? && model.threads[t].position == position
          && model.threads[t].loaded == position + 1
      modifies this, sequence, slots
      ensures Valid() && InCall(s0, model) && t < |model.threads| && InRange(model, env, n + 1, 0, limit)
      ensures won ==> model.threads[t] == PopCopy(position, []) && position < model.dequeuePosition
      ensures !won ==> model.threads[t].PopLoadSequence?
                       && position <= model.threads[t].position == observed <= model.dequeuePosition
      ensures n >= |env| && !spurious ==> Rank(model, t) < Rank(old(model), t)
      ensures env == [] && !spurious ==> won == (position == old(model).dequeuePosition)
      ensures env == [] && won ==> model.pushed == old(model).pushed && model.closed == old(model).closed
                                   && model.dequeuePosition == position + 1
    {
      assert ThreadOk(model, t);
      Await(t, env, n, s0, 0, limit);
      won, observed := CompareExchangeDequeue(t, position, spurious, s0);
    }

    /** The reload of the position after a turn that found the slot ahead. */
    method PopReload(t: nat, env: Interference, n: nat, ghost s0: State, ghost limit: nat) returns (position: nat)
      requires Valid() && InCall(s0, model) && t < |model.threads| && InRange(model, env, n, 0, limit)
      requires model.threads[t].PopDecide? && model.threads[t].loaded > model.threads[t].position + 1
      modifies this, sequence, slots
      ensures Valid() && InCall(s0, model) && t < |model.threads| && InRange(model, env, n + 1, 0, limit)
      ensures model.threads[t].PopLoadSequence?
      ensures old(model).dequeuePosition <= model.threads[t].position == position <= model.dequeuePosition
      ensures n >= |env| ==> Rank(model, t) < Rank(old(model), t)
    {
      hide Inv, Follows, TotalMoves, Rank, PushExcused, PopExcused;
      Tick(t, s0);
      Await(t, env, n, s0, 0, limit);
      position := dequeuePosition;
      Tick(t, s0);
    }

    /** Pop up to its successful compare-and-swap, if it gets that far. */
    method ClaimPop(t: nat, env: Interference, weak: seq<bool>, ghost s0: State, ghost limit: nat)
      returns (claimed: Option<nat>, n: nat)
      requires Valid() && s0 == model && t < |model.threads| && model.threads[t].Resting()
      requires InRange(model, env, 0, 0, limit)
      modifies this, sequence, slots
      ensures Valid() && InCall(s0, model) && t < |model.threads|
      ensures claimed.None? ==>
                model.threads[t].PopReturned? && model.threads[t].ticket.None? && PopExcused(s0, model)
      ensures model.enqueuePosition <= limit
      ensures claimed.Some? ==>
                && InRange(model, env, n, 0, limit) && model.threads[t] == PopCopy(claimed.value, [])
                && s0.dequeuePosition <= claimed.value < model.dequeuePosition
      ensures env == [] ==>
                && claimed == (if Ready(s0) then Some(s0.dequeuePosition) else None)
                && model.dequeuePosition == s0.dequeuePosition + (if claimed.Some? then 1 else 0)
                && model.pushed == s0.pushed && model.closed == s0.closed
    {
      hide Inv, Follows, TotalMoves, Rank, Words.Difference, PushExcused, PopExcused;
      var position := EnterPop(t, env, s0, limit);
      n := 1;
      while true
        modifies this, sequence, slots
        invariant Valid() && InCall(s0, model) && t < |model.threads| && InRange(model, env, n, 0, limit)
        invariant model.threads[t].PopLoadSequence? && model.threads[t].position == position
        invariant s0.dequeuePosition <= position <= model.dequeuePosition
        invariant env == [] ==> model == s0.At(t, model.threads[t]) && position == model.dequeuePosition
        decreases Turns(env, n), Rank(model, t)
      {
        var loaded := PopLook(t, position, env, n, s0, limit);
        n := n + 1;
        Words.DifferenceExact(loaded, position + 1);
        var difference := Words.Difference(loaded, position + 1);
        if difference == 0 {
          var won, observed := PopContend(t, position, env, n, Weak(weak, env, n), s0, limit);
          n := n + 1;
          if won {
            return Some(position), n;
          }
          position := observed;
        } else if difference < 0 {
          Tick(t, s0);
          return None, n;
        } else {
          position := PopReload(t, env, n, s0, limit);
          n := n + 1;
        }
      }
    }

    /**
     * Pop. Whatever the other threads do, the call is a run of the protocol; what it returns is
     * the item pushed under a ticket claimed during the call, and a refusal means that at some
     * moment of the call the next ticket was not ready; run alone, it is refused exactly then, and
     * otherwise takes the oldest item.
     */
    method Pop(t: nat, env: Interference, weak: seq<bool>) returns (result: Option<Item>)
      requires Valid() && t < |model.threads| && model.threads[t].Resting()
      requires InRange(model, env, 0, 0, Limit(model, env, 0))
      modifies this, sequence, slots
      ensures Valid() && InCall(old(model), model) && t < |model.threads|
      ensures model.threads[t].PopReturned? && result.Some? == model.threads[t].ticket.Some?
      ensures result.Some? ==>
                var ticket := model.threads[t].ticket.value;
                && old(model).dequeuePosition <= ticket < |model.pushed|
                && result.value == model.pushed[ticket] == model.threads[t].out
      ensures result.None? ==> PopExcused(old(model), model)
      ensures model.enqueuePosition <= Limit(old(model), env, 0)
      ensures env == [] ==>
                && result == (if Ready(old(model)) then Some(old(model).pushed[old(model).dequeuePosition]) else None)
                && model.dequeuePosition == old(model).dequeuePosition + (if result.Some? then 1 else 0)
                && model.pushed == old(model).pushed && model.closed == old(model).closed
    {
      hide Inv, Follows, TotalMoves, Rank, PushExcused, PopExcused;
      ghost var s0, limit := model, Limit(model, env, 0);
      var claimed, n := ClaimPop(t, env, weak, s0, limit);
      if claimed.None? {
        return None;
      }
      var out := FinishPop(t, claimed.value, env, n, s0, limit);
      PopGetsItsPush(model, t);
      return Some(out);
    }

    method CloseQueue(t: nat)
      requires Valid() && Enabled(model, t, Close)
      modifies this`model, this`closed
      ensures Valid() && closed && model == old(model).(closed := true)
    {
      CloseInv(model, t);
      model := Step(model, t, Close);
      closed := true;
    }
  }
}
