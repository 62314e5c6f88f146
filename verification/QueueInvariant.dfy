/** The inductive invariant of the queue, for any number of threads and any capacity of at least two. */
module QueueInvariant {
  import opened Options
  import opened QueueProtocol
  import Words

  // ----- slots of nearby tickets

  lemma SlotNextLap(u: nat, capacity: nat)
    requires capacity >= 1
    ensures Slot(u + capacity, capacity) == Slot(u, capacity)
  {
  }

  lemma {:induction false} SlotsDiffer(u: nat, v: nat, capacity: nat)
    requires u < v < u + capacity
    ensures Slot(u, capacity) != Slot(v, capacity)
  {
    if u >= capacity {
      SlotsDiffer(u - capacity, v - capacity, capacity);
    } else if v >= capacity {
      assert Slot(v, capacity) == v - capacity;
    }
  }

  /** Masking a position with `capacity - 1` yields its slot when the capacity is a power of two. */
  lemma MaskIsSlot(position: nat, capacity: nat, k: nat)
    requires capacity == Words.Pow2(k)
    ensures Words.BitAnd(position, capacity - 1) == Slot(position, capacity)
  {
    Words.MaskIsMod(position, k);
    SlotIsMod(position, capacity);
  }

  lemma {:induction false} SlotIsMod(position: nat, capacity: nat)
    requires capacity >= 1
    ensures Slot(position, capacity) == position % capacity
  {
    if position >= capacity {
      SlotIsMod(position - capacity, capacity);
      var p := position - capacity;
      assert p == (p / capacity) * capacity + p % capacity;
      assert position == (p / capacity + 1) * capacity + p % capacity;
      Words.DivModUnique(position, capacity, p / capacity + 1, p % capacity);
    }
  }

  // ----- the invariant

  ghost predicate Shape(s: State) {
    && s.elementSize >= 1
    && |s.data| == |s.sequence| >= 2
    && |s.pushed| == s.enqueuePosition
    && s.dequeuePosition <= s.enqueuePosition <= s.dequeuePosition + s.Capacity()
    && (forall i :: 0 <= i < |s.data| ==> |s.data[i]| == s.elementSize)
    && (forall u :: 0 <= u < |s.pushed| ==> |s.pushed[u]| == s.elementSize)
  }

  /** The slot of a claimed ticket that no pop has claimed: being written, or published. */
  ghost predicate HeldTicket(s: State, u: nat)
    requires Shape(s) && s.dequeuePosition <= u < s.enqueuePosition
  {
    if u in s.writers then s.sequence[s.SlotOf(u)] == u
    else s.sequence[s.SlotOf(u)] == u + 1 && s.data[s.SlotOf(u)] == s.pushed[u]
  }

  /** The slot of a ticket not claimed yet: its previous lap is being read, or it is free. */
  ghost predicate FreeTicket(s: State, u: nat)
    requires Shape(s) && s.enqueuePosition <= u < s.dequeuePosition + s.Capacity()
  {
    s.sequence[s.SlotOf(u)] ==
    if u >= s.Capacity() && u - s.Capacity() in s.readers then u - s.Capacity() + 1 else u
  }

  ghost predicate Window(s: State)
    requires Shape(s)
  {
    && (forall u :: s.dequeuePosition <= u < s.enqueuePosition ==> HeldTicket(s, u))
    && (forall u :: s.enqueuePosition <= u < s.dequeuePosition + s.Capacity() ==> FreeTicket(s, u))
  }

  ghost predicate WriterOk(s: State, u: nat)
    requires u in s.writers
  {
    && s.dequeuePosition <= u < s.enqueuePosition
    && s.writers[u] < |s.threads|
    && s.threads[s.writers[u]].PushCopy?
    && s.threads[s.writers[u]].position == u
  }

  ghost predicate ReaderOk(s: State, u: nat)
    requires Shape(s) && u in s.readers
  {
    && u < s.dequeuePosition && s.enqueuePosition <= u + s.Capacity()
    && s.data[s.SlotOf(u)] == s.pushed[u]
    && s.readers[u] < |s.threads|
    && s.threads[s.readers[u]].PopCopy?
    && s.threads[s.readers[u]].position == u
  }

  ghost predicate Delivered(s: State)
    requires Shape(s)
  {
    && (forall u :: u in s.delivered <==> 0 <= u < s.dequeuePosition && u !in s.readers)
    && (forall u :: u in s.delivered ==> s.delivered[u] == s.pushed[u])
  }

  ghost predicate ThreadOk(s: State, t: nat)
    requires Shape(s) && t < |s.threads|
  {
    match s.threads[t]
    case Idle => true
    case PushStart(item) => |item| == s.elementSize
    case PushLoadPosition(item, base, retries) =>
      |item| == s.elementSize && base + retries <= s.enqueuePosition
    case PushLoadSequence(item, position, base, retries) =>
      |item| == s.elementSize && base + retries <= position <= s.enqueuePosition
    case PushDecide(item, position, loaded, base, retries) =>
      && |item| == s.elementSize && base + retries <= position <= s.enqueuePosition
      && loaded <= s.sequence[s.SlotOf(position)]
      && (loaded > position ==> position < s.enqueuePosition)
    case PushCopy(item, position, copied) =>
      && position in s.writers && s.writers[position] == t
      && position < s.enqueuePosition && item == s.pushed[position]
      && copied <= s.elementSize
      && s.data[s.SlotOf(position)][..copied] == item[..copied]
    case PushReturned(ticket) => ticket.Some? ==> ticket.value < s.enqueuePosition
    case PopLoadPosition(base, retries) => base + retries <= s.dequeuePosition
    case PopLoadSequence(position, base, retries) => base + retries <= position <= s.dequeuePosition
    case PopDecide(position, loaded, base, retries) =>
      && base + retries <= position <= s.dequeuePosition
      && loaded <= s.sequence[s.SlotOf(position)]
      && (loaded > position + 1 ==> position < s.dequeuePosition)
    case PopCopy(position, out) =>
      && position in s.readers && s.readers[position] == t
      && position < s.dequeuePosition
      && |out| <= s.elementSize && out == s.pushed[position][..|out|]
    case PopReturned(ticket, out) =>
      ticket.Some? ==> ticket.value in s.delivered && s.delivered[ticket.value] == out
  }

  ghost predicate Inv(s: State) {
    && Shape(s)
    && Window(s)
    && (forall u :: u in s.writers ==> WriterOk(s, u))
    && (forall u :: u in s.readers ==> ReaderOk(s, u))
    && Delivered(s)
    && (forall t :: 0 <= t < |s.threads| ==> ThreadOk(s, t))
  }

  lemma InitialInv(s: State)
    requires Initial(s) && s.Capacity() >= 2
    ensures Inv(s)
  {
    forall u | 0 <= u < s.Capacity() ensures FreeTicket(s, u) {
    }
  }

  // ----- reading the window

  /** The slot of the next push ticket carries that ticket exactly when the queue has room and the slot is free. */
  lemma NextPushSlot(s: State)
    requires Inv(s)
    ensures var e := s.enqueuePosition; var q := s.sequence[s.SlotOf(e)];
            && q <= e
            && (q == e <==> e < s.dequeuePosition + s.Capacity()
                            && (e >= s.Capacity() ==> e - s.Capacity() !in s.readers))
  {
    var e := s.enqueuePosition;
    if e < s.dequeuePosition + s.Capacity() {
      assert FreeTicket(s, e);
    } else {
      SlotNextLap(s.dequeuePosition, s.Capacity());
      assert HeldTicket(s, s.dequeuePosition);
    }
  }

  /** The slot of the next pop ticket is published exactly when that ticket is claimed and written. */
  lemma NextPopSlot(s: State)
    requires Inv(s)
    ensures var d := s.dequeuePosition; var q := s.sequence[s.SlotOf(d)];
            && q <= d + 1
            && (q == d + 1 <==> d < s.enqueuePosition && d !in s.writers)
  {
    var d := s.dequeuePosition;
    if d < s.enqueuePosition {
      assert HeldTicket(s, d);
    } else {
      assert FreeTicket(s, d);
    }
  }

  /** A compare-and-swap that can succeed after an earlier load still finds the loaded sequence. */
  lemma LoadedStillCurrent(s: State, t: nat)
    requires Inv(s) && t < |s.threads|
    ensures s.threads[t].PushDecide? && s.threads[t].loaded == s.threads[t].position == s.enqueuePosition ==>
              s.sequence[s.SlotOf(s.threads[t].position)] == s.threads[t].loaded
    ensures s.threads[t].PopDecide? && s.threads[t].loaded == s.threads[t].position + 1 &&
            s.threads[t].position == s.dequeuePosition ==>
              s.sequence[s.SlotOf(s.threads[t].position)] == s.threads[t].loaded
  {
    assert ThreadOk(s, t);
    NextPushSlot(s);
    NextPopSlot(s);
  }

  // ----- every step keeps the invariant

  /**
   * What a step of thread `t` leaves to the other threads: positions and sequences only
   * grow, and the tickets they copy keep their owner and their slot's contents.
   */
  ghost predicate Evolves(s: State, s': State, t: nat)
    requires Shape(s)
  {
    && t < |s.threads| == |s'.threads| && s'.threads == s.threads[t := s'.threads[t]]
    && s'.elementSize == s.elementSize
    && s.enqueuePosition <= s'.enqueuePosition && s.dequeuePosition <= s'.dequeuePosition
    && s.pushed <= s'.pushed
    && |s'.sequence| == |s.sequence| && |s'.data| == |s.data|
    && (forall i :: 0 <= i < |s.sequence| ==> s.sequence[i] <= s'.sequence[i])
    && (forall u :: u in s.delivered ==> u in s'.delivered && s'.delivered[u] == s.delivered[u])
    && (forall u :: u in s.writers && s.writers[u] != t ==>
          u in s'.writers && s'.writers[u] == s.writers[u] && s'.data[s.SlotOf(u)] == s.data[s.SlotOf(u)])
    && (forall u :: u in s.readers && s.readers[u] != t ==>
          u in s'.readers && s'.readers[u] == s.readers[u] && s'.data[s.SlotOf(u)] == s.data[s.SlotOf(u)])
    && (forall u :: u in s'.writers && s'.writers[u] != t ==> u in s.writers && s.writers[u] == s'.writers[u])
    && (forall u :: u in s'.readers && s'.readers[u] != t ==> u in s.readers && s.readers[u] == s'.readers[u])
  }

  lemma OtherThreadOk(s: State, s': State, t: nat, i: nat)
    requires Inv(s) && Shape(s') && Evolves(s, s', t) && i < |s.threads| && i != t
    ensures ThreadOk(s', i)
  {
    assert ThreadOk(s, i);
    assert s'.threads[i] == s.threads[i];
  }

  lemma OtherTicketsOk(s: State, s': State, t: nat, u: nat)
    requires Inv(s) && Shape(s') && Evolves(s, s', t)
    requires forall w :: w in s'.writers ==> s'.dequeuePosition <= w
    requires forall r :: r in s'.readers ==> s'.enqueuePosition <= r + s'.Capacity()
    ensures u in s'.writers && s'.writers[u] != t ==> WriterOk(s', u)
    ensures u in s'.readers && s'.readers[u] != t ==> ReaderOk(s', u)
  {
    if u in s'.writers && s'.writers[u] != t {
      assert WriterOk(s, u);
    }
    if u in s'.readers && s'.readers[u] != t {
      assert ReaderOk(s, u);
    }
  }

  /** It is enough to look at the window, the deliveries, and the thread that moved. */
  lemma Assemble(s: State, s': State, t: nat)
    requires Inv(s) && Shape(s') && Evolves(s, s', t)
    requires Window(s') && Delivered(s') && ThreadOk(s', t)
    requires forall w :: w in s'.writers ==> s'.dequeuePosition <= w
    requires forall r :: r in s'.readers ==> s'.enqueuePosition <= r + s'.Capacity()
    requires forall w :: w in s'.writers && s'.writers[w] == t ==> WriterOk(s', w)
    requires forall r :: r in s'.readers && s'.readers[r] == t ==> ReaderOk(s', r)
    ensures Inv(s')
  {
    forall u | u in s'.writers ensures WriterOk(s', u) {
      OtherTicketsOk(s, s', t, u);
    }
    forall u | u in s'.readers ensures ReaderOk(s', u) {
      OtherTicketsOk(s, s', t, u);
    }
    forall i | 0 <= i < |s'.threads| ensures ThreadOk(s', i) {
      if i != t { OtherThreadOk(s, s', t, i); }
    }
  }

  /** A thread copies at most the ticket it stands at. */
  lemma OwnTickets(s: State, t: nat)
    requires Inv(s) && t < |s.threads|
    ensures forall u :: u in s.writers && s.writers[u] == t ==> s.threads[t].PushCopy? && s.threads[t].position == u
    ensures forall u :: u in s.readers && s.readers[u] == t ==> s.threads[t].PopCopy? && s.threads[t].position == u
    ensures forall u :: u in s.writers ==> s.dequeuePosition <= u < s.enqueuePosition
    ensures forall u :: u in s.readers ==> u < s.dequeuePosition && s.enqueuePosition <= u + s.Capacity()
  {
    forall u | u in s.writers ensures s.dequeuePosition <= u < s.enqueuePosition
      && (s.writers[u] == t ==> s.threads[t].PushCopy? && s.threads[t].position == u) {
      assert WriterOk(s, u);
    }
    forall u | u in s.readers ensures u < s.dequeuePosition && s.enqueuePosition <= u + s.Capacity()
      && (s.readers[u] == t ==> s.threads[t].PopCopy? && s.threads[t].position == u) {
      assert ReaderOk(s, u);
    }
  }

  /** A step that touches no slot and no position leaves the window as it was. */
  lemma SameWindow(s: State, s': State)
    requires Inv(s) && Shape(s')
    requires s'.sequence == s.sequence && s'.data == s.data && s'.pushed == s.pushed
    requires s'.writers == s.writers && s'.readers == s.readers && s'.delivered == s.delivered
    requires s'.enqueuePosition == s.enqueuePosition && s'.dequeuePosition == s.dequeuePosition
    ensures Window(s') && Delivered(s')
  {
    forall u | s.dequeuePosition <= u < s.enqueuePosition ensures HeldTicket(s', u) {
      assert HeldTicket(s, u);
    }
    forall u | s.enqueuePosition <= u < s.dequeuePosition + s.Capacity() ensures FreeTicket(s', u) {
      assert FreeTicket(s, u);
    }
  }

  lemma LocalEvolves(s: State, t: nat, thread: Thread)
    requires Inv(s) && t < |s.threads| && !s.threads[t].Copying()
    ensures Evolves(s, s.At(t, thread), t)
  {
  }

  /** Changing one thread's locals only. */
  lemma LocalStep(s: State, t: nat, thread: Thread)
    requires Inv(s) && t < |s.threads| && !s.threads[t].Copying()
    requires ThreadOk(s.At(t, thread), t)
    ensures Inv(s.At(t, thread))
  {
    SameWindow(s, s.At(t, thread));
    OwnTickets(s, t);
    Assemble(s, s.At(t, thread), t);
  }

  lemma ClaimPushWindow(s: State, t: nat)
    requires Inv(s) && t < |s.threads| && s.threads[t].PushDecide?
    requires s.threads[t].loaded == s.threads[t].position == s.enqueuePosition
    ensures var s' := PushDecided(s, t, false); Shape(s') && Window(s') && Delivered(s')
  {
    var s' := PushDecided(s, t, false);
    var e := s.enqueuePosition;
    assert ThreadOk(s, t);
    LoadedStillCurrent(s, t);
    NextPushSlot(s);
    forall u | s.dequeuePosition <= u < e + 1 ensures HeldTicket(s', u) {
      if u < e { assert HeldTicket(s, u); }
    }
    forall u | e + 1 <= u < s.dequeuePosition + s.Capacity() ensures FreeTicket(s', u) {
      assert FreeTicket(s, u);
    }
  }

  lemma ClaimPushEvolves(s: State, t: nat)
    requires Inv(s) && t < |s.threads| && s.threads[t].PushDecide?
    requires s.threads[t].loaded == s.threads[t].position == s.enqueuePosition
    ensures Evolves(s, PushDecided(s, t, false), t)
  {
    OwnTickets(s, t);
  }

  lemma ClaimPush(s: State, t: nat)
    requires Inv(s) && t < |s.threads| && s.threads[t].PushDecide?
    requires s.threads[t].loaded == s.threads[t].position == s.enqueuePosition
    ensures Inv(PushDecided(s, t, false))
  {
    var s' := PushDecided(s, t, false);
    ClaimPushWindow(s, t);
    ClaimPushEvolves(s, t);
    LoadedStillCurrent(s, t);
    NextPushSlot(s);
    OwnTickets(s, t);
    assert ThreadOk(s, t);
    assert ThreadOk(s', t);
    assert WriterOk(s', s.enqueuePosition);
    Assemble(s, s', t);
  }

  lemma ClaimPopWindow(s: State, t: nat)
    requires Inv(s) && t < |s.threads| && s.threads[t].PopDecide?
    requires s.threads[t].loaded == s.threads[t].position + 1 && s.threads[t].position == s.dequeuePosition
    ensures var s' := PopDecided(s, t, false); Shape(s') && Window(s') && Delivered(s')
  {
    var s' := PopDecided(s, t, false);
    var d, c := s.dequeuePosition, s.Capacity();
    LoadedStillCurrent(s, t);
    NextPopSlot(s);
    assert HeldTicket(s, d);
    OwnTickets(s, t);
    forall u | d + 1 <= u < s.enqueuePosition ensures HeldTicket(s', u) {
      assert HeldTicket(s, u);
    }
    forall u | s.enqueuePosition <= u < d + 1 + c ensures FreeTicket(s', u) {
      if u == d + c {
        SlotNextLap(d, c);
      } else {
        assert FreeTicket(s, u);
      }
    }
  }

  lemma ClaimPopEvolves(s: State, t: nat)
    requires Inv(s) && t < |s.threads| && s.threads[t].PopDecide?
    requires s.threads[t].loaded == s.threads[t].position + 1 && s.threads[t].position == s.dequeuePosition
    ensures Evolves(s, PopDecided(s, t, false), t)
  {
    OwnTickets(s, t);
  }

  lemma ClaimPop(s: State, t: nat)
    requires Inv(s) && t < |s.threads| && s.threads[t].PopDecide?
    requires s.threads[t].loaded == s.threads[t].position + 1 && s.threads[t].position == s.dequeuePosition
    ensures Inv(PopDecided(s, t, false))
  {
    var s' := PopDecided(s, t, false);
    ClaimPopWindow(s, t);
    ClaimPopEvolves(s, t);
    LoadedStillCurrent(s, t);
    NextPopSlot(s);
    assert HeldTicket(s, s.dequeuePosition);
    OwnTickets(s, t);
    assert ThreadOk(s, t);
    assert ThreadOk(s', t);
    assert ReaderOk(s', s.dequeuePosition);
    Assemble(s, s', t);
  }

  /** Two tickets that are being copied at the same time use different slots. */
  lemma CopiesApart(s: State, u: nat, v: nat)
    requires Inv(s) && u != v
    requires u in s.writers || u in s.readers
    requires v in s.writers || v in s.readers
    ensures s.SlotOf(u) != s.SlotOf(v)
  {
    assert u in s.writers ==> WriterOk(s, u);
    assert v in s.writers ==> WriterOk(s, v);
    assert u in s.readers ==> ReaderOk(s, u);
    assert v in s.readers ==> ReaderOk(s, v);
    if u < v {
      SlotsDiffer(u, v, s.Capacity());
    } else {
      SlotsDiffer(v, u, s.Capacity());
    }
  }

  /** Within one window, tickets have slots of their own. */
  lemma WindowApart(s: State, u: nat, v: nat)
    requires Shape(s) && u != v
    requires s.dequeuePosition <= u < s.dequeuePosition + s.Capacity()
    requires s.dequeuePosition <= v < s.dequeuePosition + s.Capacity()
    ensures s.SlotOf(u) != s.SlotOf(v)
  {
    if u < v {
      SlotsDiffer(u, v, s.Capacity());
    } else {
      SlotsDiffer(v, u, s.Capacity());
    }
  }

  lemma ByteInWindow(s: State, t: nat)
    requires Inv(s) && t < |s.threads| && s.threads[t].PushCopy?
    requires s.threads[t].copied < s.elementSize && CopyInBounds(s, s.threads[t])
    ensures var s' := ByteIn(s, t); Shape(s') && Window(s') && Delivered(s')
  {
    var s' := ByteIn(s, t);
    var w := s.threads[t].position;
    assert ThreadOk(s, t);
    assert WriterOk(s, w);
    forall u | s.dequeuePosition <= u < s.enqueuePosition ensures HeldTicket(s', u) {
      assert HeldTicket(s, u);
      if u != w { WindowApart(s, w, u); }
    }
    forall u | s.enqueuePosition <= u < s.dequeuePosition + s.Capacity() ensures FreeTicket(s', u) {
      assert FreeTicket(s, u);
    }
  }

  lemma ByteInEvolves(s: State, t: nat)
    requires Inv(s) && t < |s.threads| && s.threads[t].PushCopy?
    requires s.threads[t].copied < s.elementSize && CopyInBounds(s, s.threads[t])
    ensures Evolves(s, ByteIn(s, t), t)
  {
    var w := s.threads[t].position;
    OwnTickets(s, t);
    assert ThreadOk(s, t);
    forall u | u in s.writers && s.writers[u] != t ensures s.SlotOf(u) != s.SlotOf(w) {
      CopiesApart(s, u, w);
    }
    forall u | u in s.readers && s.readers[u] != t ensures s.SlotOf(u) != s.SlotOf(w) {
      CopiesApart(s, u, w);
    }
  }

  lemma ByteInInv(s: State, t: nat)
    requires Inv(s) && t < |s.threads| && s.threads[t].PushCopy?
    requires s.threads[t].copied < s.elementSize && CopyInBounds(s, s.threads[t])
    ensures Inv(ByteIn(s, t))
  {
    var s' := ByteIn(s, t);
    var PushCopy(item, w, copied) := s.threads[t];
    ByteInWindow(s, t);
    OwnTickets(s, t);
    assert ThreadOk(s, t);
    assert WriterOk(s, w);
    assert WriterOk(s', w);
    assert ThreadOk(s', t) by {
      var before, after := s.data[s.SlotOf(w)], s'.data[s.SlotOf(w)];
      assert after[..copied + 1] == before[..copied] + [item[copied]];
      assert item[..copied + 1] == item[..copied] + [item[copied]];
    }
    ByteInEvolves(s, t);
    Assemble(s, s', t);
  }

  lemma PublishHeld(s: State, t: nat, u: nat)
    requires Shape(s) && t < |s.threads| && s.threads[t].PushCopy? && Shape(Publish(s, t))
    requires s.dequeuePosition <= u < s.enqueuePosition && HeldTicket(s, u)
    requires s.SlotOf(u) == s.SlotOf(s.threads[t].position) <==> u == s.threads[t].position
    requires u == s.threads[t].position ==> s.data[s.SlotOf(u)] == s.pushed[u]
    ensures HeldTicket(Publish(s, t), u)
  {
  }

  lemma PublishFree(s: State, t: nat, u: nat)
    requires Shape(s) && t < |s.threads| && s.threads[t].PushCopy? && Shape(Publish(s, t))
    requires s.enqueuePosition <= u < s.dequeuePosition + s.Capacity() && FreeTicket(s, u)
    requires s.SlotOf(u) != s.SlotOf(s.threads[t].position)
    ensures FreeTicket(Publish(s, t), u)
  {
  }

  lemma PublishWindow(s: State, t: nat)
    requires Inv(s) && t < |s.threads| && s.threads[t].PushCopy?
    requires s.threads[t].copied == s.elementSize && CopyInBounds(s, s.threads[t])
    ensures var s' := Publish(s, t); Shape(s') && Window(s') && Delivered(s')
  {
    var s' := Publish(s, t);
    var PushCopy(item, w, copied) := s.threads[t];
    assert ThreadOk(s, t);
    assert WriterOk(s, w);
    assert s.data[s.SlotOf(w)] == s.data[s.SlotOf(w)][..copied] == item[..copied] == item;
    forall u | s.dequeuePosition <= u < s.enqueuePosition ensures HeldTicket(s', u) {
      assert HeldTicket(s, u);
      if u != w { WindowApart(s, w, u); }
      PublishHeld(s, t, u);
    }
    forall u | s.enqueuePosition <= u < s.dequeuePosition + s.Capacity() ensures FreeTicket(s', u) {
      assert FreeTicket(s, u);
      WindowApart(s, w, u);
      PublishFree(s, t, u);
    }
  }

  lemma PublishEvolves(s: State, t: nat)
    requires Inv(s) && t < |s.threads| && s.threads[t].PushCopy?
    ensures Evolves(s, Publish(s, t), t)
  {
    OwnTickets(s, t);
    assert ThreadOk(s, t);
    assert HeldTicket(s, s.threads[t].position);
  }

  lemma PublishInv(s: State, t: nat)
    requires Inv(s) && t < |s.threads| && s.threads[t].PushCopy?
    requires s.threads[t].copied == s.elementSize && CopyInBounds(s, s.threads[t])
    ensures Inv(Publish(s, t))
  {
    PublishWindow(s, t);
    PublishEvolves(s, t);
    OwnTickets(s, t);
    assert ThreadOk(s, t);
    Assemble(s, Publish(s, t), t);
  }

  lemma ByteOutEvolves(s: State, t: nat)
    requires Inv(s) && t < |s.threads| && s.threads[t].PopCopy?
    requires |s.threads[t].out| < s.elementSize && CopyInBounds(s, s.threads[t])
    ensures Evolves(s, ByteOut(s, t), t)
  {
    OwnTickets(s, t);
  }

  lemma ByteOutInv(s: State, t: nat)
    requires Inv(s) && t < |s.threads| && s.threads[t].PopCopy?
    requires |s.threads[t].out| < s.elementSize && CopyInBounds(s, s.threads[t])
    ensures Inv(ByteOut(s, t))
  {
    var s' := ByteOut(s, t);
    var r := s.threads[t].position;
    SameWindow(s, s');
    ByteOutEvolves(s, t);
    OwnTickets(s, t);
    assert ThreadOk(s, t);
    assert ReaderOk(s, r);
    assert ReaderOk(s', r);
    Assemble(s, s', t);
  }

  /** The slot that a release hands back is that of ticket `r + capacity`. */
  lemma ReleasedSlot(s: State, t: nat)
    requires Inv(s) && t < |s.threads| && s.threads[t].PopCopy?
    ensures var r, c := s.threads[t].position, s.Capacity();
            && r < s.dequeuePosition && s.enqueuePosition <= r + c
            && s.SlotOf(r + c) == s.SlotOf(r) && s.sequence[s.SlotOf(r)] == r + 1
  {
    var r := s.threads[t].position;
    assert ThreadOk(s, t);
    assert ReaderOk(s, r);
    SlotNextLap(r, s.Capacity());
    assert FreeTicket(s, r + s.Capacity());
  }

  lemma ReleaseHeld(s: State, t: nat, u: nat)
    requires Shape(s) && t < |s.threads| && s.threads[t].PopCopy? && Shape(Release(s, t))
    requires s.dequeuePosition <= u < s.enqueuePosition && HeldTicket(s, u)
    requires s.SlotOf(u) != s.SlotOf(s.threads[t].position)
    ensures HeldTicket(Release(s, t), u)
  {
  }

  lemma ReleaseFree(s: State, t: nat, u: nat)
    requires Shape(s) && t < |s.threads| && s.threads[t].PopCopy? && Shape(Release(s, t))
    requires s.enqueuePosition <= u < s.dequeuePosition + s.Capacity() && FreeTicket(s, u)
    requires s.SlotOf(u) == s.SlotOf(s.threads[t].position) <==> u == s.threads[t].position + s.Capacity()
    ensures FreeTicket(Release(s, t), u)
  {
  }

  lemma ReleaseWindow(s: State, t: nat)
    requires Inv(s) && t < |s.threads| && s.threads[t].PopCopy?
    requires |s.threads[t].out| == s.elementSize
    ensures var s' := Release(s, t); Shape(s') && Window(s')
  {
    var s' := Release(s, t);
    var f := s.threads[t].position + s.Capacity();
    ReleasedSlot(s, t);
    forall u | s.dequeuePosition <= u < s.enqueuePosition ensures HeldTicket(s', u) {
      assert HeldTicket(s, u);
      WindowApart(s, f, u);
      ReleaseHeld(s, t, u);
    }
    forall u | s.enqueuePosition <= u < s.dequeuePosition + s.Capacity() ensures FreeTicket(s', u) {
      assert FreeTicket(s, u);
      if u != f { WindowApart(s, f, u); }
      ReleaseFree(s, t, u);
    }
  }

  lemma ReleaseDelivers(s: State, t: nat)
    requires Inv(s) && t < |s.threads| && s.threads[t].PopCopy?
    requires |s.threads[t].out| == s.elementSize
    ensures Shape(Release(s, t)) && Delivered(Release(s, t)) && Evolves(s, Release(s, t), t)
  {
    assert ThreadOk(s, t);
    ReleasedSlot(s, t);
    OwnTickets(s, t);
  }

  lemma ReleaseInv(s: State, t: nat)
    requires Inv(s) && t < |s.threads| && s.threads[t].PopCopy?
    requires |s.threads[t].out| == s.elementSize
    ensures Inv(Release(s, t))
  {
    ReleaseWindow(s, t);
    ReleaseDelivers(s, t);
    OwnTickets(s, t);
    Assemble(s, Release(s, t), t);
  }

  lemma PushDecidedInv(s: State, t: nat, spurious: bool)
    requires Inv(s) && t < |s.threads| && s.threads[t].PushDecide?
    ensures Inv(PushDecided(s, t, spurious))
  {
    var PushDecide(item, position, loaded, base, retries) := s.threads[t];
    assert ThreadOk(s, t);
    if loaded == position == s.enqueuePosition && !spurious {
      ClaimPush(s, t);
    } else {
      LocalStep(s, t, PushDecided(s, t, spurious).threads[t]);
    }
  }

  lemma PopDecidedInv(s: State, t: nat, spurious: bool)
    requires Inv(s) && t < |s.threads| && s.threads[t].PopDecide?
    ensures Inv(PopDecided(s, t, spurious))
  {
    var PopDecide(position, loaded, base, retries) := s.threads[t];
    assert ThreadOk(s, t);
    if loaded == position + 1 && position == s.dequeuePosition && !spurious {
      ClaimPop(s, t);
    } else {
      LocalStep(s, t, PopDecided(s, t, spurious).threads[t]);
    }
  }

  lemma CloseInv(s: State, t: nat)
    requires Inv(s) && t < |s.threads|
    ensures Inv(s.(closed := true))
  {
    var s' := s.(closed := true);
    SameWindow(s, s');
    OwnTickets(s, t);
    assert ThreadOk(s, t);
    assert ThreadOk(s', t);
    forall u | u in s.writers ensures WriterOk(s', u) { assert WriterOk(s, u); }
    forall u | u in s.readers ensures ReaderOk(s', u) { assert ReaderOk(s, u); }
    Assemble(s, s', t);
  }

  lemma StepInv(s: State, t: nat, m: Move)
    requires Inv(s) && Enabled(s, t, m)
    ensures Inv(Step(s, t, m))
  {
    match m
    case Close => CloseInv(s, t);
    case BeginPush(item) => LocalStep(s, t, PushStart(item));
    case BeginPop => LocalStep(s, t, PopLoadPosition(s.dequeuePosition, 0));
    case Advance(spurious) =>
      var thread := s.threads[t];
      if thread.PushCopy? {
        if thread.copied < s.elementSize { ByteInInv(s, t); } else { PublishInv(s, t); }
      } else if thread.PopCopy? {
        if |thread.out| < s.elementSize { ByteOutInv(s, t); } else { ReleaseInv(s, t); }
      } else if thread.PushDecide? {
        PushDecidedInv(s, t, spurious);
      } else if thread.PopDecide? {
        PopDecidedInv(s, t, spurious);
      } else {
        LoadedOk(s, t);
        LocalStep(s, t, Loaded(s, thread));
      }
  }

  lemma LoadedOk(s: State, t: nat)
    requires Inv(s) && t < |s.threads| && !s.threads[t].Copying()
    requires !s.threads[t].PushDecide? && !s.threads[t].PopDecide?
    ensures ThreadOk(s.At(t, Loaded(s, s.threads[t])), t)
  {
    assert ThreadOk(s, t);
    NextPushSlot(s);
    NextPopSlot(s);
  }

  lemma StepEvolves(s: State, t: nat, m: Move)
    requires Inv(s) && Enabled(s, t, m)
    ensures Evolves(s, Step(s, t, m), t)
  {
    match m
    case Close =>
    case BeginPush(item) => LocalEvolves(s, t, PushStart(item));
    case BeginPop => LocalEvolves(s, t, PopLoadPosition(s.dequeuePosition, 0));
    case Advance(spurious) =>
      var thread := s.threads[t];
      if thread.PushCopy? {
        if thread.copied < s.elementSize { ByteInEvolves(s, t); } else { PublishEvolves(s, t); }
      } else if thread.PopCopy? {
        assert ThreadOk(s, t);
        if |thread.out| < s.elementSize { ByteOutEvolves(s, t); } else { ReleaseDelivers(s, t); }
      } else if thread.PushDecide? {
        PushDecidedEvolves(s, t, spurious);
      } else if thread.PopDecide? {
        PopDecidedEvolves(s, t, spurious);
      } else {
        LocalEvolves(s, t, Loaded(s, thread));
      }
  }

  lemma PushDecidedEvolves(s: State, t: nat, spurious: bool)
    requires Inv(s) && t < |s.threads| && s.threads[t].PushDecide?
    ensures Evolves(s, PushDecided(s, t, spurious), t)
  {
    if s.threads[t].loaded == s.threads[t].position == s.enqueuePosition && !spurious {
      ClaimPushEvolves(s, t);
    } else {
      LocalEvolves(s, t, PushDecided(s, t, spurious).threads[t]);
    }
  }

  lemma PopDecidedEvolves(s: State, t: nat, spurious: bool)
    requires Inv(s) && t < |s.threads| && s.threads[t].PopDecide?
    ensures Evolves(s, PopDecided(s, t, spurious), t)
  {
    if s.threads[t].loaded == s.threads[t].position + 1 && s.threads[t].position == s.dequeuePosition && !spurious {
      ClaimPopEvolves(s, t);
    } else {
      LocalEvolves(s, t, PopDecided(s, t, spurious).threads[t]);
    }
  }

  lemma NextInv(s: State, s': State)
    requires Inv(s) && Next(s, s')
    ensures Inv(s')
  {
    var t: nat, m: Move :| Enabled(s, t, m) && s' == Step(s, t, m);
    StepInv(s, t, m);
  }

  /** The invariant holds throughout every run of a queue of capacity at least two. */
  lemma {:induction false} RunInv(trace: seq<State>, k: nat)
    requires FullRun(trace) && trace[0].Capacity() >= 2 && k < |trace|
    ensures Inv(trace[k])
  {
    if k == 0 {
      InitialInv(trace[0]);
    } else {
      RunInv(trace, k - 1);
      assert StepsAt(trace, k - 1);
      NextInv(trace[k - 1], trace[k]);
    }
  }
}
