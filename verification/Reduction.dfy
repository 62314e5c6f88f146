/** Per-executor accumulators folded at the end give the sequential result, for any commutative monoid. */
module Reduction {
  import Split

  datatype Monoid<!M> = Monoid(op: (M, M) -> M, unit: M)

  ghost predicate Lawful<M(!new)>(m: Monoid<M>) {
    && (forall a, b, c :: m.op(m.op(a, b), c) == m.op(a, m.op(b, c)))
    && (forall a, b :: m.op(a, b) == m.op(b, a))
    && (forall a :: m.op(a, m.unit) == a)
  }

  /** The content of a slot after these tasks have updated it in this order, each adding its contribution. */
  function Slot<T, M>(m: Monoid<M>, contribution: T -> M, ran: seq<T>): M {
    if ran == [] then m.unit
    else m.op(Slot(m, contribution, ran[..|ran| - 1]), contribution(ran[|ran| - 1]))
  }

  function Slots<T, M>(m: Monoid<M>, contribution: T -> M, history: seq<seq<T>>): (r: seq<M>)
    ensures |r| == |history|
    ensures forall e :: 0 <= e < |history| ==> r[e] == Slot(m, contribution, history[e])
  {
    seq(|history|, e requires 0 <= e < |history| => Slot(m, contribution, history[e]))
  }

  function Combined<M>(m: Monoid<M>, slots: seq<M>): M {
    if slots == [] then m.unit
    else m.op(Combined(m, slots[..|slots| - 1]), slots[|slots| - 1])
  }

  /** What a caller of foreach_slot adds up, slot by slot. */
  method FoldSlots<M>(m: Monoid<M>, slots: seq<M>) returns (total: M)
    ensures total == Combined(m, slots)
  {
    total := m.unit;
    for i := 0 to |slots|
      invariant total == Combined(m, slots[..i])
    {
      assert slots[..i + 1][..i] == slots[..i];
      total := m.op(total, slots[i]);
    }
    assert slots[..|slots|] == slots;
  }

  lemma Associates<M(!new)>(m: Monoid<M>, a: M, b: M, c: M)
    requires Lawful(m)
    ensures m.op(m.op(a, b), c) == m.op(a, m.op(b, c))
  {
  }

  lemma Exchange<M(!new)>(m: Monoid<M>, a: M, b: M, c: M)
    requires Lawful(m)
    ensures m.op(m.op(a, b), c) == m.op(m.op(a, c), b)
  {
    assert m.op(m.op(a, b), c) == m.op(a, m.op(b, c));
    assert m.op(b, c) == m.op(c, b);
    assert m.op(m.op(a, c), b) == m.op(a, m.op(c, b));
  }

  lemma RightUnit<M(!new)>(m: Monoid<M>, a: M)
    requires Lawful(m)
    ensures m.op(a, m.unit) == a
  {
  }

  lemma {:induction false} SlotConcat<T, M(!new)>(m: Monoid<M>, f: T -> M, a: seq<T>, b: seq<T>)
    requires Lawful(m)
    ensures Slot(m, f, a + b) == m.op(Slot(m, f, a), Slot(m, f, b))
    decreases |b|
  {
    hide Lawful;
    if b == [] {
      assert a + b == a;
      RightUnit(m, Slot(m, f, a));
    } else {
      var b', x := b[..|b| - 1], f(b[|b| - 1]);
      SlotConcat(m, f, a, b');
      assert (a + b)[..|a + b| - 1] == a + b';
      Associates(m, Slot(m, f, a), Slot(m, f, b'), x);
    }
  }

  lemma SlotDrop<T, M(!new)>(m: Monoid<M>, f: T -> M, b: seq<T>, k: nat)
    requires Lawful(m) && k < |b|
    ensures Slot(m, f, b) == m.op(Slot(m, f, b[..k] + b[k + 1..]), f(b[k]))
  {
    hide Lawful;
    var left, right, x := b[..k], b[k + 1..], f(b[k]);
    assert b == (left + [b[k]]) + right;
    assert (left + [b[k]])[..k] == left;
    SlotConcat(m, f, left + [b[k]], right);
    SlotConcat(m, f, left, right);
    Exchange(m, Slot(m, f, left), x, Slot(m, f, right));
  }

  lemma RemoveOne<T>(b: seq<T>, k: nat)
    requires k < |b|
    ensures multiset(b[..k] + b[k + 1..]) == multiset(b) - multiset{b[k]}
  {
    assert b == b[..k] + [b[k]] + b[k + 1..];
  }

  /** One update leaves its own contribution; with SlotConcat this says what every slot holds. */
  lemma SlotSingle<T, M(!new)>(m: Monoid<M>, f: T -> M, x: T)
    requires Lawful(m)
    ensures Slot(m, f, []) == m.unit && Slot(m, f, [x]) == f(x)
  {
    assert [x][..0] == [];
    assert m.op(m.unit, f(x)) == m.op(f(x), m.unit);
    RightUnit(m, f(x));
  }

  /** The slot depends only on which tasks ran, not on their order. */
  lemma {:induction false} SlotPermutes<T, M(!new)>(m: Monoid<M>, f: T -> M, a: seq<T>, b: seq<T>)
    requires Lawful(m) && multiset(a) == multiset(b)
    ensures Slot(m, f, a) == Slot(m, f, b)
    decreases |a|
  {
    hide Lawful;
    if a == [] {
      assert |b| == |multiset(b)| == 0;
    } else {
      var x, a' := a[|a| - 1], a[..|a| - 1];
      RemoveOne(a, |a| - 1);
      assert a[..|a| - 1] + a[|a| - 1 + 1..] == a';
      assert x in multiset(b);
      var k: nat :| k < |b| && b[k] == x;
      RemoveOne(b, k);
      SlotPermutes(m, f, a', b[..k] + b[k + 1..]);
      SlotDrop(m, f, b, k);
    }
  }

  lemma {:induction false} CombinedIsFlat<T, M(!new)>(m: Monoid<M>, f: T -> M, history: seq<seq<T>>)
    requires Lawful(m)
    ensures Combined(m, Slots(m, f, history)) == Slot(m, f, Split.Flatten(history))
    decreases |history|
  {
    if history != [] {
      var init, last := history[..|history| - 1], history[|history| - 1];
      CombinedIsFlat(m, f, init);
      assert Slots(m, f, history)[..|history| - 1] == Slots(m, f, init);
      SlotConcat(m, f, Split.Flatten(init), last);
    }
  }

  /** Parallel reduction equals the sequential fold over everything that was executed. */
  lemma ParallelEqualsSequential<T, M(!new)>(m: Monoid<M>, f: T -> M, history: seq<seq<T>>, all: seq<T>)
    requires Lawful(m) && multiset(Split.Flatten(history)) == multiset(all)
    ensures Combined(m, Slots(m, f, history)) == Slot(m, f, all)
  {
    CombinedIsFlat(m, f, history);
    SlotPermutes(m, f, Split.Flatten(history), all);
  }
}
