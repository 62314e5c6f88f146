/** Progress of the whole queue: every run is finite up to the calls it begins and the spurious failures it meets. */
module QueueProgress {
  import opened Options
  import opened QueueProtocol
  import opened QueueInvariant
  import opened QueueTheorems

  /** Thread `t` has a successful compare-and-swap before it. */
  predicate Contending(thread: Thread) {
    || thread.PushStart? || thread.PushLoadPosition? || thread.PushLoadSequence? || thread.PushDecide?
    || thread.PopLoadPosition? || thread.PopLoadSequence? || thread.PopDecide?
  }

  /** A claim makes every other thread repeat at most three steps; whoever may still claim pays for that in advance. */
  function Credit(s: State, t: nat): nat
    requires t < |s.threads|
  {
    Rank(s, t) + if Contending(s.threads[t]) then 3 * |s.threads| else 0
  }

  function Credits(s: State, n: nat): nat
    requires n <= |s.threads|
  {
    if n == 0 then 0 else Credits(s, n - 1) + Credit(s, n - 1)
  }

  /** What a move pays in: a call for all its steps, a spurious failure for the step and the turn it repeats. */
  function Price(s: State, m: Move): nat {
    match m
    case BeginPush(_) => s.elementSize + 7 + 3 * |s.threads|
    case BeginPop => s.elementSize + 7 + 3 * |s.threads|
    case Close => 1
    case Advance(spurious) => if spurious then 2 else 0
  }

  /** Thread `t` is about to win its compare-and-swap. */
  predicate Claims(s: State, t: nat, m: Move) {
    && t < |s.threads| && m == Advance(false)
    && ((s.threads[t].PushDecide? && s.threads[t].loaded == s.threads[t].position == s.enqueuePosition)
        || (s.threads[t].PopDecide? && s.threads[t].position == s.dequeuePosition
            && s.threads[t].loaded == s.threads[t].position + 1))
  }

  // ----- one step

  /** What a step changes of the positions that ranks are measured against. */
  lemma PositionsMove(s: State, t: nat, m: Move)
    requires Enabled(s, t, m)
    ensures var s' := Step(s, t, m);
            && s'.elementSize == s.elementSize && s'.threads == s.threads[t := s'.threads[t]]
            && (!Claims(s, t, m) ==> s'.enqueuePosition == s.enqueuePosition && s'.dequeuePosition == s.dequeuePosition)
  {
    StepFramed(s, t, m);
    if m.Advance? && (s.threads[t].PushDecide? || s.threads[t].PopDecide?) && !Claims(s, t, m) {
      DecisionMoves(s, t, m.spurious);
    } else {
      hide Step;
    }
  }

  lemma DecisionMoves(s: State, t: nat, spurious: bool)
    requires t < |s.threads| && !Claims(s, t, Advance(spurious))
    ensures s.threads[t].PushDecide? ==> PushDecided(s, t, spurious).enqueuePosition == s.enqueuePosition
    ensures s.threads[t].PopDecide? ==> PopDecided(s, t, spurious).dequeuePosition == s.dequeuePosition
  {
  }

  lemma OthersKeepRank(s: State, t: nat, m: Move, j: nat)
    requires Enabled(s, t, m) && j < |s.threads| && j != t
    ensures Credit(Step(s, t, m), j) <= Credit(s, j) + if Claims(s, t, m) then 3 else 0
  {
    PositionsMove(s, t, m);
    hide Step;
  }

  /** A spurious failure costs at most the step back to the sequence load. */
  lemma SpuriousTurn(s: State, t: nat)
    requires Inv(s) && t < |s.threads|
    ensures s.threads[t].PushDecide? ==>
              var s' := PushDecided(s, t, true); t < |s'.threads| && Credit(s', t) <= Credit(s, t) + 1
    ensures s.threads[t].PopDecide? ==>
              var s' := PopDecided(s, t, true); t < |s'.threads| && Credit(s', t) <= Credit(s, t) + 1
  {
    assert ThreadOk(s, t);
  }

  /** Past the compare-and-swap a call does not come back to it. */
  lemma ContendingEnds(s: State, t: nat)
    requires Enabled(s, t, Advance(false))
    ensures var s' := Step(s, t, Advance(false));
            t < |s'.threads| && (Contending(s'.threads[t]) ==> Contending(s.threads[t]) && !Claims(s, t, Advance(false)))
            && (Claims(s, t, Advance(false)) ==> Contending(s.threads[t]))
  {
    if s.threads[t].Copying() {
      CopyLeaves(s, t);
    } else if !s.threads[t].PushDecide? && !s.threads[t].PopDecide? {
      assert Contending(s.threads[t]);
    }
  }

  lemma CopyLeaves(s: State, t: nat)
    requires Enabled(s, t, Advance(false)) && s.threads[t].Copying()
    ensures var s' := Step(s, t, Advance(false)); t < |s'.threads| && !Contending(s'.threads[t])
  {
  }

  /** The step itself is paid for, and so is what a claim costs the others. */
  lemma OwnStepPays(s: State, t: nat, m: Move)
    requires Inv(s) && Enabled(s, t, m)
    ensures Credit(Step(s, t, m), t) + 1 + (if Claims(s, t, m) then 3 * |s.threads| else 0)
            <= Credit(s, t) + Price(s, m)
  {
    if m == Advance(false) {
      RankFalls(s, t);
      ContendingEnds(s, t);
      hide Inv, Step, Rank, Claims, Contending;
    } else if m.Advance? {
      SpuriousPays(s, t);
    } else {
      hide Inv;
    }
  }

  lemma SpuriousPays(s: State, t: nat)
    requires Inv(s) && Enabled(s, t, Advance(true))
    ensures Credit(Step(s, t, Advance(true)), t) <= Credit(s, t) + 1
  {
    if s.threads[t].PushDecide? || s.threads[t].PopDecide? {
      SpuriousTurn(s, t);
      hide Inv, Credit;
    } else {
      assert Step(s, t, Advance(true)) == Step(s, t, Advance(false));
      RankFalls(s, t);
      ContendingEnds(s, t);
      hide Inv, Step, Rank, Claims, Contending;
    }
  }

  // ----- all threads

  lemma {:induction false} SumOfOthers(s: State, s': State, t: nat, n: nat, rise: nat)
    requires |s'.threads| == |s.threads| && n <= |s.threads| && t < |s.threads|
    requires forall j: nat :: j < |s.threads| && j != t ==> Credit(s', j) <= Credit(s, j) + rise
    ensures Credits(s', n) + (if t < n then Credit(s, t) else 0)
            <= Credits(s, n) + (if t < n then Credit(s', t) else 0) + rise * n
  {
    hide Credit;
    if n > 0 {
      SumOfOthers(s, s', t, n - 1, rise);
      assert rise * n == rise * (n - 1) + rise;
    }
  }

  /** Every step lowers the sum of all credits, except for what calls and spurious failures pay in. */
  lemma StepPays(s: State, t: nat, m: Move)
    requires Inv(s) && Enabled(s, t, m)
    ensures var s' := Step(s, t, m); Credits(s', |s'.threads|) + 1 <= Credits(s, |s.threads|) + Price(s, m)
  {
    var s' := Step(s, t, m);
    OwnStepPays(s, t, m);
    forall j: nat | j < |s.threads| && j != t
      ensures Credit(s', j) <= Credit(s, j) + if Claims(s, t, m) then 3 else 0 {
      OthersKeepRank(s, t, m, j);
    }
    SumOfOthers(s, s', t, |s.threads|, if Claims(s, t, m) then 3 else 0);
    hide Inv, Step, Credit, Claims, Price;
  }

  // ----- runs with their moves

  ghost predicate Path(s: State, moves: seq<(nat, Move)>, s': State)
    decreases |moves|
  {
    if moves == [] then s' == s
    else Enabled(s, moves[0].0, moves[0].1) && Path(Step(s, moves[0].0, moves[0].1), moves[1..], s')
  }

  function Prices(s: State, moves: seq<(nat, Move)>): nat {
    if moves == [] then 0 else Price(s, moves[0].1) + Prices(s, moves[1..])
  }

  lemma {:induction false} SamePrices(s: State, s': State, moves: seq<(nat, Move)>)
    requires s'.elementSize == s.elementSize && |s'.threads| == |s.threads|
    ensures Prices(s', moves) == Prices(s, moves)
    decreases |moves|
  {
    if moves != [] {
      SamePrices(s, s', moves[1..]);
    }
  }

  /**
   * The steps of any run, under any schedule, are bounded by the state it starts from, the calls it
   * begins, the closes and the spurious failures: threads cannot keep each other busy for ever, and
   * while some thread is inside a call some call returns.
   */
  lemma {:induction false} StepsAreBounded(s: State, moves: seq<(nat, Move)>, s': State)
    requires Inv(s) && Path(s, moves, s')
    ensures Inv(s') && |moves| + Credits(s', |s'.threads|) <= Credits(s, |s.threads|) + Prices(s, moves)
    decreases |moves|
  {
    hide Inv, Price;
    if moves != [] {
      var (t, m) := moves[0];
      var next := Step(s, t, m);
      StepInv(s, t, m);
      StepPays(s, t, m);
      StepFramed(s, t, m);
      hide Step;
      StepsAreBounded(next, moves[1..], s');
      SamePrices(s, next, moves[1..]);
    }
  }

  /** No call begins, nothing is closed, and no compare-and-swap fails without cause. */
  ghost predicate Plain(moves: seq<(nat, Move)>) {
    forall k :: 0 <= k < |moves| ==> moves[k].1 == Advance(false)
  }

  lemma {:induction false} PlainIsFree(s: State, moves: seq<(nat, Move)>)
    requires Plain(moves)
    ensures Prices(s, moves) == 0
    decreases |moves|
  {
    if moves != [] {
      PlainIsFree(s, moves[1..]);
    }
  }

  /** Nobody can move without a new call. */
  ghost predicate AllRest(s: State) {
    forall t :: 0 <= t < |s.threads| ==> s.threads[t].Resting()
  }

  /**
   * From every state that satisfies the invariant, with no new calls and no spurious failures, every
   * schedule ends after a bounded number of steps, and where it cannot go on all calls have returned.
   */
  lemma EveryoneReturns(s: State, moves: seq<(nat, Move)>, s': State)
    requires Inv(s) && Plain(moves) && Path(s, moves, s')
    ensures |moves| <= Credits(s, |s.threads|)
    ensures (forall t: nat :: !Enabled(s', t, Advance(false))) ==> AllRest(s')
  {
    StepsAreBounded(s, moves, s');
    PlainIsFree(s, moves);
    if forall t: nat :: !Enabled(s', t, Advance(false)) {
      forall t | 0 <= t < |s'.threads| ensures s'.threads[t].Resting() {
        if !s'.threads[t].Resting() {
          AlwaysEnabled(s', t, false);
        }
      }
    }
  }
}
