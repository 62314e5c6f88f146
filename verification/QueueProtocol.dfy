/**
 * The bounded multi-producer multi-consumer queue as a transition system.
 *
 * Any number of threads call push and pop. One step of a thread is one access to
 * shared memory: a load, a compare-and-swap, the copy of one byte, or a store. Steps
 * of different threads interleave freely. `pushed`, `delivered`, `writers` and
 * `readers` are auxiliary variables: no step's choice depends on them.
 */
module QueueProtocol {
  import opened Options

  type Item = seq<bv8>

  /**
   * Where a thread stands inside push or pop, with its local variables.
   * `base` (the shared position when the call began) and `retries` (the turns of the
   * loop taken for a reason other than a spurious failure) are auxiliary.
   */
  datatype Thread =
    | Idle
    | PushStart(item: Item)
    | PushLoadPosition(item: Item, base: nat, retries: nat)
    | PushLoadSequence(item: Item, position: nat, base: nat, retries: nat)
    | PushDecide(item: Item, position: nat, loaded: nat, base: nat, retries: nat)
    | PushCopy(item: Item, position: nat, copied: nat)
    | PushReturned(ticket: Option<nat>)
    | PopLoadPosition(base: nat, retries: nat)
    | PopLoadSequence(position: nat, base: nat, retries: nat)
    | PopDecide(position: nat, loaded: nat, base: nat, retries: nat)
    | PopCopy(position: nat, out: Item)
    | PopReturned(ticket: Option<nat>, out: Item)
  {
    /** Between two calls. */
    predicate Resting() {
      Idle? || PushReturned? || PopReturned?
    }

    /** Inside push, past the test of the closed flag. */
    predicate Pushing() {
      PushLoadPosition? || PushLoadSequence? || PushDecide? || PushCopy?
    }

    /** Between the compare-and-swap and the release store. */
    predicate Copying() {
      PushCopy? || PopCopy?
    }
  }

  datatype State = State(
    elementSize: nat,
    enqueuePosition: nat,
    dequeuePosition: nat,
    closed: bool,
    sequence: seq<nat>,
    data: seq<Item>,
    threads: seq<Thread>,
    pushed: seq<Item>,            // item of each claimed push, indexed by ticket
    delivered: map<nat, Item>,    // item handed out by each finished pop, by ticket
    writers: map<nat, nat>,       // ticket being written -> thread
    readers: map<nat, nat>)       // ticket being read -> thread
  {
    function Capacity(): nat { |sequence| }

    predicate Formed() {
      |data| == |sequence| >= 1
    }

    function SlotOf(ticket: nat): (slot: nat)
      requires Formed()
      ensures slot < |sequence|
    {
      Slot(ticket, |sequence|)
    }

    function At(t: nat, thread: Thread): State
      requires t < |threads|
    {
      this.(threads := threads[t := thread])
    }
  }

  /** The slot of a ticket: its remainder by the capacity, by repeated subtraction. */
  function Slot(ticket: nat, capacity: nat): (slot: nat)
    requires capacity >= 1
    ensures slot < capacity
  {
    if ticket < capacity then ticket else Slot(ticket - capacity, capacity)
  }

  datatype Move =
    | BeginPush(item: Item)
    | BeginPop
    | Close
    | Advance(spurious: bool)     // spurious: the weak compare-and-swap fails without cause

  predicate Enabled(s: State, t: nat, m: Move) {
    && s.Formed()
    && t < |s.threads|
    && match m
       case BeginPush(item) => s.threads[t].Resting() && |item| == s.elementSize
       case BeginPop => s.threads[t].Resting()
       case Close => s.threads[t].Resting()
       case Advance(_) => !s.threads[t].Resting() && CopyInBounds(s, s.threads[t])
  }

  predicate CopyInBounds(s: State, thread: Thread)
    requires s.Formed()
  {
    match thread
    case PushCopy(item, position, copied) =>
      copied <= s.elementSize == |item| == |s.data[s.SlotOf(position)]|
    case PopCopy(position, out) =>
      |out| <= s.elementSize == |s.data[s.SlotOf(position)]|
    case _ => true
  }

  function Step(s: State, t: nat, m: Move): (s': State)
    requires Enabled(s, t, m)
    ensures |s'.threads| == |s.threads|
  {
    match m
    case BeginPush(item) => s.At(t, PushStart(item))
    case BeginPop => s.At(t, PopLoadPosition(s.dequeuePosition, 0))
    case Close => s.(closed := true)
    case Advance(spurious) =>
      match s.threads[t]
      case PushDecide(_, _, _, _, _) => PushDecided(s, t, spurious)
      case PopDecide(_, _, _, _) => PopDecided(s, t, spurious)
      case PushCopy(_, _, copied) => if copied < s.elementSize then ByteIn(s, t) else Publish(s, t)
      case PopCopy(_, out) => if |out| < s.elementSize then ByteOut(s, t) else Release(s, t)
      case _ => s.At(t, Loaded(s, s.threads[t]))
  }

  /** Loading one shared word into a local. */
  function Loaded(s: State, thread: Thread): Thread
    requires s.Formed()
  {
    match thread
    case PushStart(item) =>
      if s.closed then PushReturned(None) else PushLoadPosition(item, s.enqueuePosition, 0)
    case PushLoadPosition(item, base, retries) => PushLoadSequence(item, s.enqueuePosition, base, retries)
    case PushLoadSequence(item, position, base, retries) =>
      PushDecide(item, position, s.sequence[s.SlotOf(position)], base, retries)
    case PopLoadPosition(base, retries) => PopLoadSequence(s.dequeuePosition, base, retries)
    case PopLoadSequence(position, base, retries) =>
      PopDecide(position, s.sequence[s.SlotOf(position)], base, retries)
    case _ => thread
  }

  function ByteIn(s: State, t: nat): State
    requires s.Formed() && t < |s.threads| && s.threads[t].PushCopy? && CopyInBounds(s, s.threads[t])
    requires s.threads[t].copied < s.elementSize
  {
    var PushCopy(item, position, copied) := s.threads[t];
    var slot := s.SlotOf(position);
    s.(data := s.data[slot := s.data[slot][copied := item[copied]]])
    .At(t, PushCopy(item, position, copied + 1))
  }

  function Publish(s: State, t: nat): State
    requires s.Formed() && t < |s.threads| && s.threads[t].PushCopy?
  {
    var position := s.threads[t].position;
    s.(sequence := s.sequence[s.SlotOf(position) := position + 1], writers := s.writers - {position})
    .At(t, PushReturned(Some(position)))
  }

  function ByteOut(s: State, t: nat): State
    requires s.Formed() && t < |s.threads| && s.threads[t].PopCopy? && CopyInBounds(s, s.threads[t])
    requires |s.threads[t].out| < s.elementSize
  {
    var PopCopy(position, out) := s.threads[t];
    s.At(t, PopCopy(position, out + [s.data[s.SlotOf(position)][|out|]]))
  }

  function Release(s: State, t: nat): State
    requires s.Formed() && t < |s.threads| && s.threads[t].PopCopy?
  {
    var PopCopy(position, out) := s.threads[t];
    s.(sequence := s.sequence[s.SlotOf(position) := position + s.Capacity()],
       readers := s.readers - {position},
       delivered := s.delivered[position := out])
    .At(t, PopReturned(Some(position), out))
  }

  /** Push after the sequence load: compare-and-swap, give up, or reload the position. */
  function PushDecided(s: State, t: nat, spurious: bool): State
    requires t < |s.threads| && s.threads[t].PushDecide?
  {
    var PushDecide(item, position, loaded, base, retries) := s.threads[t];
    if loaded == position then
      if s.enqueuePosition == position && !spurious then
        s.(enqueuePosition := position + 1,
           pushed := s.pushed + [item],
           writers := s.writers[position := t])
        .At(t, PushCopy(item, position, 0))
      else
        s.At(t, PushLoadSequence(item, s.enqueuePosition, base,
                                 if s.enqueuePosition == position then retries else retries + 1))
    else if loaded < position then
      s.At(t, PushReturned(None))
    else
      s.At(t, PushLoadPosition(item, base, retries + 1))
  }

  function PopDecided(s: State, t: nat, spurious: bool): State
    requires t < |s.threads| && s.threads[t].PopDecide?
  {
    var PopDecide(position, loaded, base, retries) := s.threads[t];
    if loaded == position + 1 then
      if s.dequeuePosition == position && !spurious then
        s.(dequeuePosition := position + 1, readers := s.readers[position := t])
        .At(t, PopCopy(position, []))
      else
        s.At(t, PopLoadSequence(s.dequeuePosition, base,
                                if s.dequeuePosition == position then retries else retries + 1))
    else if loaded < position + 1 then
      s.At(t, PopReturned(None, []))
    else
      s.At(t, PopLoadPosition(base, retries + 1))
  }

  /** The state that create leaves behind. */
  predicate Initial(s: State) {
    && s.elementSize >= 1
    && s.enqueuePosition == s.dequeuePosition == 0
    && !s.closed
    && |s.data| == |s.sequence| >= 1
    && (forall i :: 0 <= i < |s.sequence| ==> s.sequence[i] == i)
    && (forall i :: 0 <= i < |s.data| ==> |s.data[i]| == s.elementSize)
    && (forall t :: 0 <= t < |s.threads| ==> s.threads[t] == Idle)
    && s.pushed == []
    && s.delivered == map[] && s.writers == map[] && s.readers == map[]
  }

  /** What any step of thread `t` leaves in place, invariant or not. */
  ghost predicate Framed(s: State, s': State, t: nat)
    requires t < |s.threads|
  {
    && s'.elementSize == s.elementSize && (s.closed ==> s'.closed)
    && |s'.sequence| == |s.sequence| && |s'.data| == |s.data|
    && |s'.threads| == |s.threads| && s'.threads == s.threads[t := s'.threads[t]]
    && s.enqueuePosition <= s'.enqueuePosition && s.dequeuePosition <= s'.dequeuePosition
    && s.pushed <= s'.pushed
    && (!s.threads[t].PushDecide? ==> s'.enqueuePosition == s.enqueuePosition && s'.pushed == s.pushed)
    && (!s.threads[t].PopDecide? ==> s'.dequeuePosition == s.dequeuePosition)
    && (s'.threads[t].Pushing() ==> s.threads[t].Pushing() || (s.threads[t].PushStart? && !s.closed))
    && (!s.threads[t].PushCopy? && s'.threads[t].PushCopy? ==> s'.threads[t].position == s.enqueuePosition)
  }

  lemma LoadFramed(s: State, t: nat)
    requires s.Formed() && t < |s.threads| && !s.threads[t].Copying()
    requires !s.threads[t].PushDecide? && !s.threads[t].PopDecide?
    ensures Framed(s, s.At(t, Loaded(s, s.threads[t])), t)
  {
  }

  lemma PushDecisionFramed(s: State, t: nat, spurious: bool)
    requires t < |s.threads| && s.threads[t].PushDecide?
    ensures Framed(s, PushDecided(s, t, spurious), t)
  {
  }

  lemma PopDecisionFramed(s: State, t: nat, spurious: bool)
    requires t < |s.threads| && s.threads[t].PopDecide?
    ensures Framed(s, PopDecided(s, t, spurious), t)
  {
  }

  lemma CopyFramed(s: State, t: nat)
    requires Enabled(s, t, Advance(false)) && s.threads[t].Copying()
    ensures Framed(s, Step(s, t, Advance(false)), t)
  {
  }

  lemma StepFramed(s: State, t: nat, m: Move)
    requires Enabled(s, t, m)
    ensures Framed(s, Step(s, t, m), t)
  {
    match m
    case BeginPush(_) =>
    case BeginPop =>
    case Close =>
    case Advance(spurious) =>
      if s.threads[t].Copying() {
        CopyFramed(s, t);
      } else if s.threads[t].PushDecide? {
        PushDecisionFramed(s, t, spurious);
      } else if s.threads[t].PopDecide? {
        PopDecisionFramed(s, t, spurious);
      } else {
        LoadFramed(s, t);
      }
  }

  lemma NextFramed(s: State, s': State) returns (t: nat)
    requires Next(s, s')
    ensures t < |s.threads| && Framed(s, s', t)
  {
    var mover: nat, m: Move :| Enabled(s, mover, m) && s' == Step(s, mover, m);
    StepFramed(s, mover, m);
    t := mover;
  }

  ghost predicate Next(s: State, s': State) {
    exists t: nat, m: Move :: Enabled(s, t, m) && s' == Step(s, t, m)
  }

  ghost predicate StepsAt(trace: seq<State>, i: nat)
    requires i + 1 < |trace|
  {
    Next(trace[i], trace[i + 1])
  }

  /** A finite run, from any state. */
  ghost predicate Run(trace: seq<State>) {
    && |trace| >= 1
    && forall i: nat :: i + 1 < |trace| ==> StepsAt(trace, i)
  }

  ghost predicate FullRun(trace: seq<State>) {
    Run(trace) && Initial(trace[0])
  }
}
