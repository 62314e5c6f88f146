/**
 * Who owns which block of memory: create with any pattern of allocation failures, the slot
 * registry that grows and rolls back, and destroy. Every block of the ledger carries the
 * role it plays in the context; blocks of other owners carry none.
 */
module Resources {
  import opened Options

  type Block = nat

  datatype Role =
    | ContextBlock
    | StagingArray
    | DispatchTasks
    | DispatchWork
    | ThreadArray
    | WorkerArray
    | WorkerMemory(worker: nat)
    | SlotConfigs
    | SlotTable(worker: nat)
    | SlotData(worker: nat, slot: nat)

  type Ledger = map<Block, Option<Role>>

  const SLOT_INITIAL_CAPACITY: nat := 4

  /** The pool allocator: each request is granted or refused as `grants` says, granted once it is used up. */
  class Arena {
    var live: Ledger
    var next: Block
    const grants: seq<bool>
    var asked: nat

    constructor (live: Ledger, next: Block, grants: seq<bool>)
      requires forall b :: b in live ==> b < next
      ensures Valid() && this.live == live && this.grants == grants && asked == 0
    {
      this.live, this.next, this.grants, this.asked := live, next, grants, 0;
    }

    ghost predicate Valid()
      reads this
    {
      forall b :: b in live ==> b < next
    }

    /** Every request from the `from`-th up to the `to`-th is granted. */
    ghost predicate Granted(from: nat, to: nat) {
      forall k :: from <= k < to && k < |grants| ==> grants[k]
    }

    method Allocate(role: Role) returns (block: Option<Block>)
      requires Valid()
      modifies this
      ensures Valid() && asked == old(asked) + 1
      ensures block.Some? <==> Granted(old(asked), asked)
      ensures block.Some? ==> block.value !in old(live) && live == old(live)[block.value := Some(role)]
      ensures block.None? ==> live == old(live)
    {
      var granted := asked >= |grants| || grants[asked];
      asked := asked + 1;
      if !granted {
        return None;
      }
      block := Some(next);
      live := live[next := Some(role)];
      next := next + 1;
    }

    method Free(block: Block)
      requires Valid() && block in live
      modifies this`live
      ensures Valid() && live == old(live) - {block}
    {
      live := live - {block};
    }
  }

  datatype SlotConfig = SlotConfig(size: nat, hasInit: bool, hasDestroy: bool)

  datatype Callback = Initialised(slot: nat, worker: nat) | Destroyed(slot: nat, worker: nat)

  /** Everything a context points to. */
  datatype Holdings = Holdings(
    context: Option<Block>, staging: Option<Block>, tasks: Option<Block>, work: Option<Block>,
    threads: Option<Block>, workers: Option<Block>, memories: seq<Option<Block>>,
    configs: Option<Block>, tables: seq<Option<Block>>, slots: seq<seq<Option<Block>>>)

  /** The block that plays a role, if any. */
  function Holder(h: Holdings, role: Role): Option<Block> {
    match role
    case ContextBlock => h.context
    case StagingArray => h.staging
    case DispatchTasks => h.tasks
    case DispatchWork => h.work
    case ThreadArray => h.threads
    case WorkerArray => h.workers
    case WorkerMemory(i) => if i < |h.memories| then h.memories[i] else None
    case SlotConfigs => h.configs
    case SlotTable(i) => if i < |h.tables| then h.tables[i] else None
    case SlotData(i, s) => if i < |h.slots| && s < |h.slots[i]| then h.slots[i][s] else None
  }

  /** An executor's table holds its first `n` slots and nothing else. */
  predicate Filled(row: seq<Option<Block>>, table: Option<Block>, n: nat) {
    && n <= |row| && (table.None? ==> row == [])
    && (forall s :: 0 <= s < |row| ==> (row[s].Some? <==> s < n))
  }

  predicate Empty(row: seq<Option<Block>>) {
    forall s :: 0 <= s < |row| ==> row[s].None?
  }

  /** Pointers and ledger agree: no block is lost, shared, dangling or freed twice. */
  ghost predicate Exact(h: Holdings, live: Ledger) {
    && (forall role :: Holder(h, role).Some? ==>
          Holder(h, role).value in live && live[Holder(h, role).value] == Some(role))
    && (forall b :: b in live && live[b].Some? ==> Holder(h, live[b].value) == Some(b))
  }

  /** Pointers differ at most in one role. */
  ghost predicate SameBut(h: Holdings, h': Holdings, role: Role) {
    forall other :: other != role ==> Holder(h', other) == Holder(h, other)
  }

  lemma StoreKeepsExact(h: Holdings, h': Holdings, live: Ledger, role: Role, block: Block)
    requires Exact(h, live) && block !in live && SameBut(h, h', role)
    requires Holder(h, role).None? && Holder(h', role) == Some(block)
    ensures Exact(h', live[block := Some(role)]) && Foreign(live[block := Some(role)]) == Foreign(live)
  {
  }

  lemma FreeKeepsExact(h: Holdings, h': Holdings, live: Ledger, role: Role)
    requires Exact(h, live) && SameBut(h, h', role)
    requires Holder(h, role).Some? && Holder(h', role).None?
    ensures Exact(h', live - {Holder(h, role).value}) && Foreign(live - {Holder(h, role).value}) == Foreign(live)
  {
  }

  /** One array pointer replaced. */
  function Set(h: Holdings, role: Role, block: Option<Block>): Holdings {
    match role
    case ContextBlock => h.(context := block)
    case StagingArray => h.(staging := block)
    case DispatchTasks => h.(tasks := block)
    case DispatchWork => h.(work := block)
    case ThreadArray => h.(threads := block)
    case WorkerArray => h.(workers := block)
    case SlotConfigs => h.(configs := block)
    case _ => h
  }

  predicate PerWorker(role: Role) {
    role.WorkerMemory? || role.SlotTable? || role.SlotData?
  }

  lemma SetsAlone(h: Holdings, role: Role, block: Option<Block>)
    requires !PerWorker(role)
    ensures SameBut(h, Set(h, role, block), role) && Holder(Set(h, role, block), role) == block
  {
  }

  /** Replacing the block of one role by a new one, the old one freed. */
  lemma SwapKeepsExact(h: Holdings, h': Holdings, live: Ledger, role: Role, block: Block)
    requires Exact(h, live) && block !in live && SameBut(h, h', role)
    requires Holder(h, role).Some? && Holder(h', role) == Some(block)
    ensures Exact(h', live[block := Some(role)] - {Holder(h, role).value})
    ensures Foreign(live[block := Some(role)] - {Holder(h, role).value}) == Foreign(live)
  {
  }

  /** Blocks of other owners. */
  function Foreign(live: Ledger): Ledger {
    map b | b in live && live[b].None? :: live[b]
  }

  /** No executor holds anything. */
  ghost predicate Vacant(h: Holdings) {
    && Empty(h.memories) && Empty(h.tables)
    && (forall i :: 0 <= i < |h.slots| ==> Empty(h.slots[i]))
  }

  /** A context that holds its own block only. */
  lemma OneBlock(h: Holdings, live: Ledger, block: Block)
    requires Foreign(live) == live && block !in live && h.context == Some(block) && Vacant(h)
    requires h.staging.None? && h.tasks.None? && h.work.None? && h.threads.None? && h.workers.None? && h.configs.None?
    ensures Exact(h, live[block := Some(ContextBlock)]) && Foreign(live[block := Some(ContextBlock)]) == live
  {
    assert forall b :: b in live ==> b in Foreign(live);
  }

  /** A context that holds nothing leaves only the blocks of others. */
  lemma NothingHeld(h: Holdings, live: Ledger)
    requires Exact(h, live) && Vacant(h) && h.context.None? && h.staging.None? && h.tasks.None? && h.work.None?
    requires h.threads.None? && h.workers.None? && h.configs.None?
    ensures live == Foreign(live)
  {
  }

  /** The destroy callbacks of one worker: committed slots in reverse order. */
  function WorkerCallbacks(configs: seq<SlotConfig>, worker: nat, slotCount: nat): seq<Callback>
    requires slotCount <= |configs|
  {
    if slotCount == 0 then []
    else (if configs[slotCount - 1].hasDestroy then [Destroyed(slotCount - 1, worker)] else [])
         + WorkerCallbacks(configs, worker, slotCount - 1)
  }

  /** The destroy callbacks of workers 0 to `workers - 1`. */
  function AllCallbacks(configs: seq<SlotConfig>, workers: nat, slotCount: nat): seq<Callback>
    requires slotCount <= |configs|
  {
    if workers == 0 then []
    else AllCallbacks(configs, workers - 1, slotCount) + WorkerCallbacks(configs, workers - 1, slotCount)
  }

  function InitCallbacks(config: SlotConfig, slot: nat, workers: nat): (calls: seq<Callback>)
    ensures |calls| == if config.hasInit then workers else 0
    ensures forall i :: 0 <= i < |calls| ==> calls[i] == Initialised(slot, i)
  {
    if workers == 0 || !config.hasInit then []
    else InitCallbacks(config, slot, workers - 1) + [Initialised(slot, workers - 1)]
  }

  /** Two sets of slot tables that agree on the first `n` entries of every executor. */
  ghost predicate SameUpTo(before: seq<seq<Option<Block>>>, after: seq<seq<Option<Block>>>, n: nat) {
    && |before| == |after|
    && (forall i :: 0 <= i < |after| ==> n <= |before[i]| && n <= |after[i]| && after[i][..n] == before[i][..n])
  }

  lemma SameUpToChains(a: seq<seq<Option<Block>>>, b: seq<seq<Option<Block>>>, c: seq<seq<Option<Block>>>, n: nat)
    requires SameUpTo(a, b, n) && SameUpTo(b, c, n)
    ensures SameUpTo(a, c, n)
  {
  }

  lemma Appended<T>(before: seq<T>, after: seq<T>, added: seq<T>)
    requires after == before + added
    ensures before <= after && after[|before|..] == added
  {
  }

  lemma InitNone(config: SlotConfig, slot: nat)
    ensures InitCallbacks(config, slot, 0) == []
  {
  }

  lemma InitNext(config: SlotConfig, slot: nat, workers: nat)
    ensures InitCallbacks(config, slot, workers + 1)
         == InitCallbacks(config, slot, workers) + if config.hasInit then [Initialised(slot, workers)] else []
  {
  }

  /** Executors in index order, and for one executor the larger slot first; in particular no call twice. */
  ghost predicate InTeardownOrder(calls: seq<Callback>) {
    && (forall k :: 0 <= k < |calls| ==> calls[k].Destroyed?)
    && (forall j, k :: 0 <= j < k < |calls| ==>
          calls[j].worker < calls[k].worker || (calls[j].worker == calls[k].worker && calls[j].slot > calls[k].slot))
  }

  /** Executors `from` to `to - 1`: one call for each committed slot that has a destroy function, in order. */
  ghost predicate TearsDown(calls: seq<Callback>, configs: seq<SlotConfig>, slotCount: nat, from: nat, to: nat)
    requires slotCount <= |configs|
  {
    && InTeardownOrder(calls)
    && (forall c: Callback :: c in calls <==>
          c.Destroyed? && from <= c.worker < to && c.slot < slotCount && configs[c.slot].hasDestroy)
  }

  lemma {:induction false} WorkerCallbacksAre(configs: seq<SlotConfig>, worker: nat, slotCount: nat)
    requires slotCount <= |configs|
    ensures TearsDown(WorkerCallbacks(configs, worker, slotCount), configs, slotCount, worker, worker + 1)
  {
    hide TearsDown;
    if slotCount > 0 {
      WorkerCallbacksAre(configs, worker, slotCount - 1);
      TeardownPrepends(WorkerCallbacks(configs, worker, slotCount - 1), configs, worker, slotCount - 1);
    } else {
      NothingTornDown(configs, 0, worker, worker + 1);
    }
  }

  lemma NothingTornDown(configs: seq<SlotConfig>, slotCount: nat, from: nat, to: nat)
    requires slotCount <= |configs| && (slotCount == 0 || from == to)
    ensures TearsDown([], configs, slotCount, from, to)
  {
  }

  lemma TeardownPrepends(rest: seq<Callback>, configs: seq<SlotConfig>, worker: nat, slot: nat)
    requires slot < |configs| && TearsDown(rest, configs, slot, worker, worker + 1)
    ensures TearsDown((if configs[slot].hasDestroy then [Destroyed(slot, worker)] else []) + rest,
                      configs, slot + 1, worker, worker + 1)
  {
    var calls := (if configs[slot].hasDestroy then [Destroyed(slot, worker)] else []) + rest;
    assert InTeardownOrder(calls) by {
      assert forall k :: 0 <= k < |rest| ==> rest[k] in rest;
    }
    TeardownMembers(rest, configs, worker, slot);
  }

  lemma TeardownMembers(rest: seq<Callback>, configs: seq<SlotConfig>, worker: nat, slot: nat)
    requires slot < |configs| && TearsDown(rest, configs, slot, worker, worker + 1)
    ensures var calls := (if configs[slot].hasDestroy then [Destroyed(slot, worker)] else []) + rest;
            forall c: Callback :: c in calls <==>
              c.Destroyed? && worker <= c.worker < worker + 1 && c.slot < slot + 1 && configs[c.slot].hasDestroy
  {
    hide InTeardownOrder;
  }

  lemma {:induction false} AllCallbacksAre(configs: seq<SlotConfig>, workers: nat, slotCount: nat)
    requires slotCount <= |configs|
    ensures TearsDown(AllCallbacks(configs, workers, slotCount), configs, slotCount, 0, workers)
  {
    hide TearsDown, WorkerCallbacks;
    if workers > 0 {
      AllCallbacksAre(configs, workers - 1, slotCount);
      WorkerCallbacksAre(configs, workers - 1, slotCount);
      TeardownsJoin(AllCallbacks(configs, workers - 1, slotCount), WorkerCallbacks(configs, workers - 1, slotCount),
                    configs, slotCount, workers - 1);
    } else {
      NothingTornDown(configs, slotCount, 0, 0);
    }
  }

  lemma TeardownsJoin(before: seq<Callback>, last: seq<Callback>, configs: seq<SlotConfig>, slotCount: nat, worker: nat)
    requires slotCount <= |configs|
    requires TearsDown(before, configs, slotCount, 0, worker) && TearsDown(last, configs, slotCount, worker, worker + 1)
    ensures TearsDown(before + last, configs, slotCount, 0, worker + 1)
  {
    assert InTeardownOrder(before + last) by {
      assert forall k :: 0 <= k < |before| ==> before[k] in before;
      assert forall k :: 0 <= k < |last| ==> last[k] in last;
    }
    hide InTeardownOrder;
  }

  class ContextMemory {
    const arena: Arena
    const threadCount: nat
    var context: Option<Block>
    var staging: Option<Block>
    var dispatchTasks: Option<Block>
    var dispatchWork: Option<Block>
    var threadArray: Option<Block>
    var workerArray: Option<Block>
    var memories: seq<Option<Block>>
    var configsBlock: Option<Block>
    var slotConfigs: seq<SlotConfig>
    var slotCount: nat
    var slotCapacity: nat
    var tables: seq<Option<Block>>
    var slots: seq<seq<Option<Block>>>
    var callbacks: seq<Callback>       // every init and destroy callback made, in order

    ghost function Held(): Holdings
      reads this
    {
      Holdings(context, staging, dispatchTasks, dispatchWork, threadArray, workerArray, memories,
               configsBlock, tables, slots)
    }

    ghost predicate Ledgered()
      reads this, arena
    {
      arena.Valid() && Exact(Held(), arena.live)
    }

    /** What no registration touches. */
    ghost predicate Fixtures()
      reads this
    {
      && |memories| == |tables| == |slots| == threadCount + 1
      && context.Some? && staging.Some? && dispatchTasks.Some? && dispatchWork.Some? && workerArray.Some?
      && (threadArray.Some? <==> threadCount > 0)
      && (forall i :: 0 <= i <= threadCount ==> memories[i].Some?)
      && slotCount <= slotCapacity
      && |slotConfigs| == slotCapacity && (configsBlock.Some? <==> slotCapacity > 0)
    }

    /** Executors `from` to `to - 1` hold one slot more than is committed. */
    ghost predicate Registered(from: nat, to: nat)
      reads this, arena
    {
      && Ledgered() && Fixtures()
      && (forall i :: 0 <= i <= threadCount && !(from <= i < to) ==> Filled(slots[i], tables[i], slotCount))
      && (forall i :: from <= i < to && i <= threadCount ==> Filled(slots[i], tables[i], slotCount + 1))
    }

    /** Between calls every executor holds exactly the committed slots. */
    ghost predicate Valid()
      reads this, arena
    {
      Registered(0, 0)
    }

    /** The freshly allocated block, zeroed. */
    constructor Zeroed(arena: Arena, threadCount: nat, block: Block)
      ensures this.arena == arena && this.threadCount == threadCount && callbacks == []
      ensures context == Some(block) && staging.None? && dispatchTasks.None? && dispatchWork.None?
      ensures threadArray.None? && workerArray.None? && NoWorkers() && NoSlots() && Vacant(Held())
    {
      this.arena, this.threadCount, this.context := arena, threadCount, Some(block);
      this.staging, this.dispatchTasks, this.dispatchWork := None, None, None;
      this.threadArray, this.workerArray := None, None;
      this.memories := seq(threadCount + 1, i => None);
      this.configsBlock, this.slotConfigs, this.slotCount, this.slotCapacity := None, [], 0, 0;
      this.tables := seq(threadCount + 1, i => None);
      this.slots := seq(threadCount + 1, i => []);
      this.callbacks := [];
    }

    /** No slot was ever registered. */
    ghost predicate NoSlots()
      reads this
    {
      && |tables| == |slots| == threadCount + 1 && slotConfigs == [] && slotCount == slotCapacity == 0
      && configsBlock.None? && Empty(tables) && (forall i :: 0 <= i <= threadCount ==> slots[i] == [])
    }

    ghost predicate NoWorkers()
      reads this
    {
      |memories| == threadCount + 1 && Empty(memories)
    }

    // ----- create

    /** One array, or a refusal. */
    method Obtain(role: Role) returns (block: Option<Block>)
      requires Ledgered() && !PerWorker(role) && Holder(Held(), role).None?
      modifies arena
      ensures arena.Valid() && Exact(Set(Held(), role, block), arena.live)
      ensures Foreign(arena.live) == old(Foreign(arena.live)) && (block.None? ==> arena.live == old(arena.live))
      ensures arena.asked == old(arena.asked) + 1 && (block.Some? <==> arena.Granted(old(arena.asked), arena.asked))
    {
      hide Foreign;
      ghost var live := arena.live;
      SetsAlone(Held(), role, None);
      block := arena.Allocate(role);
      if block.Some? {
        SetsAlone(Held(), role, block);
        StoreKeepsExact(Held(), Set(Held(), role, block), live, role, block.value);
      } else {
        assert Exact(Set(Held(), role, None), arena.live);
      }
    }

    /** A memory context for every executor; the first refusal destroys those already created. */
    method CreateMemories() returns (ok: bool)
      requires Ledgered() && NoWorkers()
      modifies this`memories, arena
      ensures Ledgered() && |memories| == threadCount + 1
      ensures ok ==> forall i :: 0 <= i <= threadCount ==> memories[i].Some?
      ensures !ok ==> NoWorkers()
      ensures Foreign(arena.live) == old(Foreign(arena.live))
      ensures arena.asked >= old(arena.asked) && (ok <==> arena.Granted(old(arena.asked), arena.asked))
    {
      hide Exact, Foreign;
      var created := 0;
      ok := true;
      while created <= threadCount && ok
        invariant created <= threadCount + 1 && Ledgered() && |memories| == threadCount + 1
        invariant forall i :: 0 <= i <= threadCount ==> (memories[i].Some? <==> i < created)
        invariant created == threadCount + 1 ==> ok
        invariant Foreign(arena.live) == old(Foreign(arena.live))
        invariant arena.asked >= old(arena.asked) && (ok <==> arena.Granted(old(arena.asked), arena.asked))
        decreases threadCount + 1 - created, ok
      {
        ok := CreateMemory(created);
        if ok {
          created := created + 1;
        }
      }
      if ok {
        return;
      }
      var j := 0;
      while j < created
        invariant j <= created <= threadCount && Ledgered() && |memories| == threadCount + 1
        invariant forall i :: 0 <= i <= threadCount ==> (memories[i].Some? <==> j <= i < created)
        invariant arena.asked >= old(arena.asked) && !arena.Granted(old(arena.asked), arena.asked)
        invariant Foreign(arena.live) == old(Foreign(arena.live))
      {
        FreeMemory(j);
        j := j + 1;
      }
    }

    method CreateMemory(i: nat) returns (ok: bool)
      requires Ledgered() && i < |memories| && memories[i].None?
      modifies this`memories, arena
      ensures Ledgered() && |memories| == old(|memories|)
      ensures memories == old(memories)[i := memories[i]] && (ok <==> memories[i].Some?)
      ensures Foreign(arena.live) == old(Foreign(arena.live))
      ensures arena.asked >= old(arena.asked) && (ok <==> arena.Granted(old(arena.asked), arena.asked))
    {
      ghost var h, live := Held(), arena.live;
      var block := arena.Allocate(WorkerMemory(i));
      ok := block.Some?;
      if ok {
        memories := memories[i := block];
        StoreKeepsExact(h, Held(), live, WorkerMemory(i), block.value);
      }
    }

    /** Thread array, worker array and the memory contexts; on a refusal, none of them. */
    method CreateWorkers() returns (ok: bool)
      requires Ledgered() && threadArray.None? && workerArray.None? && NoWorkers()
      modifies this`threadArray, this`workerArray, this`memories, arena
      ensures Ledgered()
      ensures ok ==> workerArray.Some? && (threadArray.Some? <==> threadCount > 0)
      ensures ok ==> |memories| == threadCount + 1 && forall i :: 0 <= i <= threadCount ==> memories[i].Some?
      ensures !ok ==> threadArray.None? && workerArray.None? && NoWorkers()
      ensures Foreign(arena.live) == old(Foreign(arena.live))
      ensures arena.asked >= old(arena.asked) && (ok <==> arena.Granted(old(arena.asked), arena.asked))
    {
      hide Exact, Foreign, Empty;
      label failThreads: {
        if threadCount > 0 {
          threadArray := Obtain(ThreadArray);
          if threadArray.None? {
            break failThreads;
          }
        }
        workerArray := Obtain(WorkerArray);
        if workerArray.None? {
          break failThreads;
        }
        ok := CreateMemories();
        if ok {
          return true;
        }
        Return(workerArray, WorkerArray, Held());
        workerArray := None;
      }
      Return(threadArray, ThreadArray, Held());
      threadArray := None;
      return false;
    }

    /** The dispatch arrays, then the workers; on a refusal, none of them. */
    method CreateDispatchParts() returns (ok: bool)
      requires Ledgered() && dispatchTasks.None? && dispatchWork.None?
      requires threadArray.None? && workerArray.None? && NoWorkers()
      modifies this`dispatchTasks, this`dispatchWork, this`threadArray, this`workerArray, this`memories, arena
      ensures Ledgered()
      ensures ok ==> dispatchTasks.Some? && dispatchWork.Some? && workerArray.Some?
      ensures ok ==> (threadArray.Some? <==> threadCount > 0)
      ensures ok ==> |memories| == threadCount + 1 && forall i :: 0 <= i <= threadCount ==> memories[i].Some?
      ensures !ok ==> dispatchTasks.None? && dispatchWork.None?
      ensures !ok ==> threadArray.None? && workerArray.None? && NoWorkers()
      ensures Foreign(arena.live) == old(Foreign(arena.live))
      ensures arena.asked >= old(arena.asked) && (ok <==> arena.Granted(old(arena.asked), arena.asked))
    {
      hide Exact, Foreign, Empty;
      dispatchTasks := Obtain(DispatchTasks);
      if dispatchTasks.None? {
        return false;
      }
      label failDispatchTasks: {
        dispatchWork := Obtain(DispatchWork);
        if dispatchWork.None? {
          break failDispatchTasks;
        }
        ok := CreateWorkers();
        if ok {
          return true;
        }
        Return(dispatchWork, DispatchWork, Held());
        dispatchWork := None;
      }
      Return(dispatchTasks, DispatchTasks, Held());
      dispatchTasks := None;
      return false;
    }

    /** Everything after the context block itself; on a refusal, nothing. */
    method CreateParts() returns (ok: bool)
      requires Ledgered() && staging.None? && dispatchTasks.None? && dispatchWork.None?
      requires threadArray.None? && workerArray.None? && NoWorkers()
      modifies this`staging, this`dispatchTasks, this`dispatchWork, this`threadArray, this`workerArray,
          this`memories, arena
      ensures Ledgered()
      ensures ok ==> staging.Some? && dispatchTasks.Some? && dispatchWork.Some? && workerArray.Some?
      ensures ok ==> (threadArray.Some? <==> threadCount > 0)
      ensures ok ==> |memories| == threadCount + 1 && forall i :: 0 <= i <= threadCount ==> memories[i].Some?
      ensures !ok ==> staging.None? && dispatchTasks.None? && dispatchWork.None?
      ensures !ok ==> threadArray.None? && workerArray.None? && NoWorkers()
      ensures Foreign(arena.live) == old(Foreign(arena.live))
      ensures arena.asked >= old(arena.asked) && (ok <==> arena.Granted(old(arena.asked), arena.asked))
    {
      hide Exact, Foreign, Empty;
      staging := Obtain(StagingArray);
      if staging.None? {
        return false;
      }
      ok := CreateDispatchParts();
      if !ok {
        Return(staging, StagingArray, Held());
        staging := None;
      }
    }

    /** A context without slots, or null and nothing kept. */
    static method Create(arena: Arena, threadCount: nat) returns (created: ContextMemory?)
      requires arena.Valid() && Foreign(arena.live) == arena.live
      modifies arena
      ensures created == null ==> arena.live == old(arena.live)
      ensures created != null ==> fresh(created) && created.arena == arena && created.threadCount == threadCount
      ensures created != null ==> created.Valid() && created.slotCount == 0 && created.callbacks == []
      ensures Foreign(arena.live) == old(Foreign(arena.live))
      ensures created != null <==> arena.Granted(old(arena.asked), arena.asked)
    {
      hide Empty, Exact, Foreign;
      ghost var live := arena.live;
      var block := arena.Allocate(ContextBlock);
      if block.None? {
        return null;
      }
      created := new ContextMemory.Zeroed(arena, threadCount, block.value);
      OneBlock(created.Held(), live, block.value);
      var ok := created.CreateParts();
      if ok {
        return;
      }
      created.Return(created.context, ContextBlock, created.Held());
      created.context := None;
      NothingHeld(created.Held(), arena.live);
      return null;
    }

    // ----- register_slot

    /** A new configuration array in place of the old one, if any. */
    method SwapConfigs() returns (ok: bool)
      requires Ledgered()
      modifies this`configsBlock, arena
      ensures Ledgered() && (if ok then configsBlock.Some? else configsBlock == old(configsBlock))
      ensures Foreign(arena.live) == old(Foreign(arena.live))
      ensures arena.asked >= old(arena.asked) && (ok <==> arena.Granted(old(arena.asked), arena.asked))
    {
      ghost var h, live := Held(), arena.live;
      var block := arena.Allocate(SlotConfigs);
      if block.None? {
        return false;
      }
      if configsBlock.Some? {
        assert Holder(h, SlotConfigs) == configsBlock;
        arena.Free(configsBlock.value);
        configsBlock := block;
        SwapKeepsExact(h, Held(), live, SlotConfigs, block.value);
      } else {
        configsBlock := block;
        StoreKeepsExact(h, Held(), live, SlotConfigs, block.value);
      }
      return true;
    }

    /** Room for one more configuration; the committed ones are copied. */
    method GrowConfigs() returns (ok: bool)
      requires Valid()
      modifies this`configsBlock, this`slotConfigs, this`slotCapacity, arena
      ensures Valid() && (ok ==> slotCount < slotCapacity)
      ensures slotCapacity == if !ok || old(slotCount < slotCapacity) then old(slotCapacity)
                              else if old(slotCapacity) == 0 then SLOT_INITIAL_CAPACITY else 2 * old(slotCapacity)
      ensures !ok ==> configsBlock == old(configsBlock) && slotConfigs == old(slotConfigs)
      ensures slotConfigs[..slotCount] == old(slotConfigs)[..slotCount]
      ensures Foreign(arena.live) == old(Foreign(arena.live))
      ensures arena.asked >= old(arena.asked) && (ok <==> arena.Granted(old(arena.asked), arena.asked))
    {
      hide Exact, Foreign, Filled;
      if slotCount < slotCapacity {
        return true;
      }
      var newCapacity := if slotCapacity == 0 then SLOT_INITIAL_CAPACITY else slotCapacity * 2;
      ok := SwapConfigs();
      if ok {
        slotConfigs := slotConfigs[..slotCount] + seq(newCapacity - slotCount, i => SlotConfig(0, false, false));
        slotCapacity := newCapacity;
      }
    }

    /** A longer table for one executor: committed pointers copied, the old table freed. */
    method GrowTable(i: nat) returns (ok: bool)
      requires Ledgered() && i < |slots| && i < |tables| && Filled(slots[i], tables[i], slotCount)
      modifies this`tables, this`slots, arena
      ensures Ledgered() && |slots| == old(|slots|) && |tables| == old(|tables|)
      ensures ok ==> tables == old(tables)[i := tables[i]] && tables[i].Some?
      ensures ok ==> slots == old(slots)[i := old(slots)[i][..slotCount] + [None]]
      ensures !ok ==> tables == old(tables) && slots == old(slots)
      ensures Foreign(arena.live) == old(Foreign(arena.live))
      ensures arena.asked >= old(arena.asked) && (ok <==> arena.Granted(old(arena.asked), arena.asked))
    {
      ghost var h, live := Held(), arena.live;
      var block := arena.Allocate(SlotTable(i));
      if block.None? {
        return false;
      }
      var grown := slots[i := slots[i][..slotCount] + [None]];
      ghost var h' := h.(tables := tables[i := block], slots := grown);
      assert SameBut(h, h', SlotTable(i));
      if tables[i].Some? {
        arena.Free(tables[i].value);
        SwapKeepsExact(h, h', live, SlotTable(i), block.value);
      } else {
        StoreKeepsExact(h, h', live, SlotTable(i), block.value);
      }
      tables, slots := tables[i := block], grown;
      return true;
    }

    /** The zeroed data block of one executor, initialised by the slot's callback. */
    method AttachSlot(i: nat, config: SlotConfig) returns (ok: bool)
      requires Ledgered() && i < |slots| && |slots[i]| == slotCount + 1 && slots[i][slotCount].None?
      modifies this`slots, this`callbacks, arena
      ensures Ledgered()
      ensures ok ==> |slots| == old(|slots|) && |slots[i]| == slotCount + 1 && slots[i][slotCount].Some?
      ensures ok ==> slots == old(slots)[i := old(slots)[i][slotCount := slots[i][slotCount]]]
      ensures callbacks == old(callbacks) + if ok && config.hasInit then [Initialised(slotCount, i)] else []
      ensures !ok ==> slots == old(slots)
      ensures Foreign(arena.live) == old(Foreign(arena.live))
      ensures arena.asked >= old(arena.asked) && (ok <==> arena.Granted(old(arena.asked), arena.asked))
    {
      ghost var h, live := Held(), arena.live;
      var block := arena.Allocate(SlotData(i, slotCount));
      if block.None? {
        slots := slots[i := slots[i][slotCount := None]];
        assert h.slots[i][slotCount := None] == h.slots[i];
        assert slots == h.slots;
        return false;
      }
      if config.hasInit {
        callbacks := callbacks + [Initialised(slotCount, i)];
      }
      slots := slots[i := slots[i][slotCount := block]];
      StoreKeepsExact(h, Held(), live, SlotData(i, slotCount), block.value);
      return true;
    }

    /** Frees one slot block, if it is there. */
    method FreeSlot(i: nat, s: nat)
      requires Ledgered() && i < |slots| && s < |slots[i]|
      modifies this`slots, arena`live
      ensures Ledgered() && slots == old(slots)[i := old(slots)[i][s := None]]
      ensures Foreign(arena.live) == old(Foreign(arena.live))
    {
      ghost var h, live := Held(), arena.live;
      if slots[i][s].Some? {
        assert Holder(h, SlotData(i, s)) == slots[i][s];
        arena.Free(slots[i][s].value);
        slots := slots[i := slots[i][s := None]];
        FreeKeepsExact(h, Held(), live, SlotData(i, s));
      } else {
        assert slots[i][s := None] == slots[i];
      }
    }

    /** The committed part of every executor's table. */
    ghost predicate Keeps(before: seq<seq<Option<Block>>>)
      reads this
    {
      SameUpTo(before, slots, slotCount)
    }

    lemma CommittedFit()
      requires Valid()
      ensures slotCount <= |slotConfigs| && Keeps(slots)
    {
      assert forall i :: 0 <= i <= threadCount ==> Filled(slots[i], tables[i], slotCount);
    }

    /** One executor's share of a registration: a longer table, then the block. */
    method Extend(i: nat, config: SlotConfig) returns (ok: bool)
      requires i <= threadCount && slotCount < slotCapacity && Registered(0, i)
      modifies this`tables, this`slots, this`callbacks, arena
      ensures Registered(0, if ok then i + 1 else i)
      ensures Keeps(old(slots))
      ensures callbacks == old(callbacks) + if ok && config.hasInit then [Initialised(slotCount, i)] else []
      ensures Foreign(arena.live) == old(Foreign(arena.live))
      ensures arena.asked >= old(arena.asked) && (ok <==> arena.Granted(old(arena.asked), arena.asked))
    {
      hide Exact, Foreign;
      assert Filled(slots[i], tables[i], slotCount);
      ok := GrowTable(i);
      if !ok {
        return;
      }
      assert Filled(slots[i], tables[i], slotCount);
      ok := AttachSlot(i, config);
      if ok {
        assert Filled(slots[i], tables[i], slotCount + 1);
      }
    }

    /** Takes a failed registration back: the blocks of the executors below `completed` are freed. */
    method RollBack(completed: nat)
      requires completed <= threadCount && Registered(0, completed)
      modifies this`slots, arena`live
      ensures Valid() && Keeps(old(slots))
      ensures Foreign(arena.live) == old(Foreign(arena.live))
    {
      hide Exact, Foreign;
      var j := 0;
      while j < completed
        invariant j <= completed && Registered(j, completed) && Keeps(old(slots))
        invariant Foreign(arena.live) == old(Foreign(arena.live))
      {
        assert Filled(slots[j], tables[j], slotCount + 1);
        FreeSlot(j, slotCount);
        assert Filled(slots[j], tables[j], slotCount);
        j := j + 1;
      }
    }

    /** One executor after the other; the first refusal takes all of them back. */
    method ExtendAll(config: SlotConfig) returns (ok: bool)
      requires Valid() && slotCount < slotCapacity
      modifies this`tables, this`slots, this`callbacks, arena
      ensures Registered(0, if ok then threadCount + 1 else 0)
      ensures Keeps(old(slots))
      ensures old(callbacks) <= callbacks
      ensures var added := callbacks[|old(callbacks)|..];
              && (forall i :: 0 <= i < |added| ==> added[i] == Initialised(slotCount, i))
              && (if !config.hasInit then added == []
                  else if ok then |added| == threadCount + 1 else |added| <= threadCount)
      ensures Foreign(arena.live) == old(Foreign(arena.live))
      ensures arena.asked >= old(arena.asked) && (ok <==> arena.Granted(old(arena.asked), arena.asked))
    {
      hide Exact, Foreign, InitCallbacks, ContextMemory.Registered, SameUpTo;
      CommittedFit();
      InitNone(config, slotCount);
      var i := 0;
      ok := true;
      while i <= threadCount
        invariant i <= threadCount + 1 && Registered(0, i) && Keeps(old(slots)) && ok
        invariant callbacks == old(callbacks) + InitCallbacks(config, slotCount, i)
        invariant Foreign(arena.live) == old(Foreign(arena.live))
        invariant old(arena.asked) <= arena.asked && arena.Granted(old(arena.asked), arena.asked)
      {
        InitNext(config, slotCount, i);
        ghost var before := slots;
        ok := Extend(i, config);
        SameUpToChains(old(slots), before, slots, slotCount);
        Appended(old(callbacks), callbacks, InitCallbacks(config, slotCount, if ok then i + 1 else i));
        if !ok {
          before := slots;
          RollBack(i);
          SameUpToChains(old(slots), before, slots, slotCount);
          return;
        }
        i := i + 1;
      }
    }

    /** Writes the configuration into the next free place. */
    method PlaceConfig(config: SlotConfig) returns (ok: bool)
      requires Valid()
      modifies this`configsBlock, this`slotConfigs, this`slotCapacity, arena
      ensures Valid() && (ok ==> slotCount < slotCapacity && slotConfigs[slotCount] == config)
      ensures slotConfigs[..slotCount] == old(slotConfigs)[..slotCount]
      ensures Foreign(arena.live) == old(Foreign(arena.live))
      ensures arena.asked >= old(arena.asked) && (ok <==> arena.Granted(old(arena.asked), arena.asked))
    {
      hide Exact, Foreign, Filled;
      ok := GrowConfigs();
      if ok {
        slotConfigs := slotConfigs[slotCount := config];
      }
    }

    /** Adds a slot to every executor, or to none. */
    method RegisterSlot(config: SlotConfig) returns (index: Option<nat>)
      requires Valid()
      modifies this`configsBlock, this`slotConfigs, this`slotCapacity, this`slotCount
      modifies this`tables, this`slots, this`callbacks, arena
      ensures Valid()
      ensures index == if arena.Granted(old(arena.asked), arena.asked) then Some(old(slotCount)) else None
      ensures slotCount == old(slotCount) + if index.Some? then 1 else 0
      ensures slotConfigs[..slotCount] == old(slotConfigs)[..old(slotCount)] + if index.Some? then [config] else []
      ensures forall i :: 0 <= i <= threadCount ==>
                slots[i][..old(slotCount)] == old(slots)[i][..old(slotCount)]
      ensures old(callbacks) <= callbacks
      ensures var added := callbacks[|old(callbacks)|..];
              && (forall i :: 0 <= i < |added| ==> added[i] == Initialised(old(slotCount), i))
              && (if !config.hasInit then added == []
                  else if index.Some? then |added| == threadCount + 1 else |added| <= threadCount)
      ensures Foreign(arena.live) == old(Foreign(arena.live))
    {
      hide Exact, Foreign, Filled;
      var idx := slotCount;
      var ok := PlaceConfig(config);
      if !ok {
        return None;
      }
      ok := ExtendAll(config);
      if !ok {
        return None;
      }
      slotCount := idx + 1;
      assert slotConfigs[..slotCount] == slotConfigs[..idx] + [config];
      return Some(idx);
    }

    // ----- destroy

    /**
     * One executor: destroy callback and block of each slot, last slot first, then its table and its memory context.
     * A pointer is set to None when its block is freed, so that a second free could not be written.
     */
    method ReleaseWorker(i: nat)
      requires Ledgered() && i < |slots| && i < |tables| && i < |memories| && memories[i].Some?
      requires slotCount <= |slotConfigs| && Filled(slots[i], tables[i], slotCount)
      modifies this`slots, this`tables, this`memories, this`callbacks, arena`live
      ensures Ledgered()
      ensures |slots| == old(|slots|) && |tables| == old(|tables|) && |memories| == old(|memories|)
      ensures forall j :: 0 <= j < |slots| && j != i ==> slots[j] == old(slots)[j]
      ensures tables == old(tables)[i := None] && memories == old(memories)[i := None]
      ensures Empty(slots[i])
      ensures callbacks == old(callbacks) + WorkerCallbacks(slotConfigs, i, slotCount)
      ensures TearsDown(callbacks[|old(callbacks)|..], slotConfigs, slotCount, i, i + 1)
      ensures Foreign(arena.live) == old(Foreign(arena.live))
    {
      hide Exact, Foreign, TearsDown, WorkerCallbacks, Filled;
      WorkerCallbacksAre(slotConfigs, i, slotCount);
      ReleaseSlots(i);
      FreeTable(i);
      FreeMemory(i);
      assert callbacks[|old(callbacks)|..] == WorkerCallbacks(slotConfigs, i, slotCount);
    }

    method ReleaseSlots(i: nat)
      requires Ledgered() && i < |slots| && i < |tables|
      requires slotCount <= |slotConfigs| && Filled(slots[i], tables[i], slotCount)
      modifies this`slots, this`callbacks, arena`live
      ensures Ledgered() && |slots| == old(|slots|) && Empty(slots[i])
      ensures forall j :: 0 <= j < |slots| && j != i ==> slots[j] == old(slots)[j]
      ensures callbacks == old(callbacks) + WorkerCallbacks(slotConfigs, i, slotCount)
      ensures Foreign(arena.live) == old(Foreign(arena.live))
    {
      hide Exact, Foreign;
      var s: nat := slotCount;
      while s > 0
        invariant s <= slotCount && Ledgered()
        invariant |slots| == old(|slots|) && |slots[i]| == old(|slots[i]|)
        invariant forall j :: 0 <= j < |slots| && j != i ==> slots[j] == old(slots)[j]
        invariant forall r :: 0 <= r < |slots[i]| ==> (slots[i][r].Some? <==> r < s)
        invariant callbacks + WorkerCallbacks(slotConfigs, i, s)
               == old(callbacks) + WorkerCallbacks(slotConfigs, i, slotCount)
        invariant Foreign(arena.live) == old(Foreign(arena.live))
      {
        s := s - 1;
        if slots[i][s].Some? && slotConfigs[s].hasDestroy {
          callbacks := callbacks + [Destroyed(s, i)];
        }
        FreeSlot(i, s);
      }
    }

    method FreeTable(i: nat)
      requires Ledgered() && i < |tables|
      modifies this`tables, arena`live
      ensures Ledgered() && tables == old(tables)[i := None]
      ensures Foreign(arena.live) == old(Foreign(arena.live))
    {
      ghost var h, live := Held(), arena.live;
      if tables[i].Some? {
        assert Holder(h, SlotTable(i)) == tables[i];
        arena.Free(tables[i].value);
        tables := tables[i := None];
        FreeKeepsExact(h, Held(), live, SlotTable(i));
      }
    }

    method FreeMemory(i: nat)
      requires Ledgered() && i < |memories| && memories[i].Some?
      modifies this`memories, arena`live
      ensures Ledgered() && memories == old(memories)[i := None]
      ensures Foreign(arena.live) == old(Foreign(arena.live))
    {
      ghost var h, live := Held(), arena.live;
      assert Holder(h, WorkerMemory(i)) == memories[i];
      arena.Free(memories[i].value);
      memories := memories[i := None];
      FreeKeepsExact(h, Held(), live, WorkerMemory(i));
    }

    /** Gives one array back, if it is there. */
    method Return(block: Option<Block>, ghost role: Role, ghost h: Holdings)
      requires arena.Valid() && Exact(h, arena.live) && !PerWorker(role) && Holder(h, role) == block
      modifies arena`live
      ensures arena.Valid() && Exact(Set(h, role, None), arena.live)
      ensures Foreign(arena.live) == old(Foreign(arena.live))
    {
      hide Foreign, Holder;
      ghost var live := arena.live;
      SetsAlone(h, role, None);
      if block.Some? {
        arena.Free(block.value);
        FreeKeepsExact(h, Set(h, role, None), live, role);
      }
    }

    method FreeBuffers()
      requires Ledgered()
      modifies this`configsBlock, this`staging, this`dispatchTasks, arena`live
      ensures Ledgered() && configsBlock.None? && staging.None? && dispatchTasks.None?
      ensures Foreign(arena.live) == old(Foreign(arena.live))
    {
      hide Exact, Foreign;
      ghost var h := Held();
      Return(configsBlock, SlotConfigs, h);
      h := Set(h, SlotConfigs, None);
      Return(staging, StagingArray, h);
      h := Set(h, StagingArray, None);
      Return(dispatchTasks, DispatchTasks, h);
      configsBlock, staging, dispatchTasks := None, None, None;
    }

    method FreeFrame()
      requires Ledgered()
      modifies this`dispatchWork, this`threadArray, this`workerArray, this`context, arena`live
      ensures Ledgered() && dispatchWork.None? && threadArray.None? && workerArray.None? && context.None?
      ensures Foreign(arena.live) == old(Foreign(arena.live))
    {
      hide Exact, Foreign;
      ghost var h := Held();
      Return(dispatchWork, DispatchWork, h);
      h := Set(h, DispatchWork, None);
      Return(threadArray, ThreadArray, h);
      h := Set(h, ThreadArray, None);
      Return(workerArray, WorkerArray, h);
      h := Set(h, WorkerArray, None);
      Return(context, ContextBlock, h);
      dispatchWork, threadArray, workerArray, context := None, None, None, None;
    }

    /** All executors, in index order. */
    method ReleaseWorkers()
      requires Valid()
      modifies this`slots, this`tables, this`memories, this`callbacks, arena`live
      ensures Ledgered()
      ensures Vacant(Held())
      ensures callbacks == old(callbacks) + AllCallbacks(slotConfigs, threadCount + 1, slotCount)
      ensures Foreign(arena.live) == old(Foreign(arena.live))
    {
      hide Exact, Foreign, TearsDown, WorkerCallbacks;
      var i := 0;
      while i <= threadCount
        invariant i <= threadCount + 1 && Ledgered()
        invariant |slots| == |tables| == |memories| == threadCount + 1
        invariant forall j :: i <= j <= threadCount ==> Filled(slots[j], tables[j], slotCount) && memories[j].Some?
        invariant forall j :: 0 <= j < i ==> tables[j].None? && memories[j].None?
        invariant forall j :: 0 <= j < i ==> Empty(slots[j])
        invariant callbacks == old(callbacks) + AllCallbacks(slotConfigs, i, slotCount)
        invariant Foreign(arena.live) == old(Foreign(arena.live))
      {
        ReleaseWorker(i);
        i := i + 1;
      }
    }

    /** Every block goes back exactly once; committed slots get their destroy callbacks, worker by worker. */
    method Destroy()
      requires Valid()
      modifies this, arena`live
      ensures arena.live == old(Foreign(arena.live))
      ensures callbacks == old(callbacks) + AllCallbacks(old(slotConfigs), threadCount + 1, old(slotCount))
      ensures var added := callbacks[|old(callbacks)|..];
              && InTeardownOrder(added)
              && old(slotCount) <= |old(slotConfigs)|
              && forall c: Callback :: c in added <==>
                   c.Destroyed? && c.worker <= threadCount && c.slot < old(slotCount) && old(slotConfigs)[c.slot].hasDestroy
    {
      hide Exact, Foreign, ContextMemory.Fixtures, AllCallbacks, Empty, InTeardownOrder;
      CommittedFit();
      AllCallbacksAre(slotConfigs, threadCount + 1, slotCount);
      ReleaseWorkers();
      FreeBuffers();
      FreeFrame();
      NothingHeld(Held(), arena.live);
      assert callbacks[|old(callbacks)|..] == AllCallbacks(old(slotConfigs), threadCount + 1, old(slotCount));
    }
  }

  /** Committed slots are live and no two of them share a block. */
  lemma {:induction false} SlotsLiveAndDistinct(c: ContextMemory, i: nat, s: nat, j: nat, t: nat)
    requires c.Valid() && i <= c.threadCount && j <= c.threadCount && s < c.slotCount && t < c.slotCount
    ensures s < |c.slots[i]| && t < |c.slots[j]|
    ensures c.slots[i][s].Some? && c.slots[i][s].value in c.arena.live
    ensures c.slots[i][s] == c.slots[j][t] ==> i == j && s == t
  {
    assert Filled(c.slots[i], c.tables[i], c.slotCount) && Filled(c.slots[j], c.tables[j], c.slotCount);
    assert Holder(c.Held(), SlotData(i, s)) == c.slots[i][s];
    assert Holder(c.Held(), SlotData(j, t)) == c.slots[j][t];
  }

  /** The registrations that went through. */
  function Accepted(requests: seq<SlotConfig>, indices: seq<Option<nat>>): seq<SlotConfig>
    requires |requests| == |indices|
  {
    if requests == [] then []
    else
      var last := |requests| - 1;
      Accepted(requests[..last], indices[..last]) + if indices[last].Some? then [requests[last]] else []
  }

  lemma {:induction false} OnlyCommittedMatter(configs: seq<SlotConfig>, configs': seq<SlotConfig>, workers: nat,
      slotCount: nat)
    requires slotCount <= |configs| && slotCount <= |configs'| && configs[..slotCount] == configs'[..slotCount]
    ensures AllCallbacks(configs, workers, slotCount) == AllCallbacks(configs', workers, slotCount)
  {
    if workers > 0 {
      OnlyCommittedMatter(configs, configs', workers - 1, slotCount);
      SameWorkerCallbacks(configs, configs', workers - 1, slotCount);
    }
  }

  lemma {:induction false} SameWorkerCallbacks(configs: seq<SlotConfig>, configs': seq<SlotConfig>, worker: nat,
      slotCount: nat)
    requires slotCount <= |configs| && slotCount <= |configs'| && configs[..slotCount] == configs'[..slotCount]
    ensures WorkerCallbacks(configs, worker, slotCount) == WorkerCallbacks(configs', worker, slotCount)
  {
    if slotCount > 0 {
      assert configs[slotCount - 1] == configs[..slotCount][slotCount - 1] == configs'[slotCount - 1];
      assert configs[..slotCount - 1] == configs[..slotCount][..slotCount - 1] == configs'[..slotCount - 1];
      SameWorkerCallbacks(configs, configs', worker, slotCount - 1);
    }
  }

  /** Accepted registrations get the indices 0, 1, 2, .. in order, and each its own configuration. */
  ghost predicate Numbered(requests: seq<SlotConfig>, indices: seq<Option<nat>>) {
    && |requests| == |indices|
    && (forall k :: 0 <= k < |indices| && indices[k].Some? ==>
          indices[k].value == |Accepted(requests[..k], indices[..k])|)
  }

  lemma NumberedStart(requests: seq<SlotConfig>, indices: seq<Option<nat>>)
    requires Numbered(requests, indices) && requests != []
    ensures var last := |requests| - 1;
            var kept' := Accepted(requests[..last], indices[..last]);
            && Numbered(requests[..last], indices[..last])
            && Accepted(requests, indices) == kept' + (if indices[last].Some? then [requests[last]] else [])
            && (indices[last].Some? ==> indices[last].value == |kept'|)
  {
    var last := |requests| - 1;
    assert forall k :: 0 <= k < last ==>
        requests[..last][..k] == requests[..k] && indices[..last][..k] == indices[..k];
  }

  lemma {:induction false} NumberedMeans(requests: seq<SlotConfig>, indices: seq<Option<nat>>, k: nat)
    requires Numbered(requests, indices) && k < |indices| && indices[k].Some?
    ensures var kept := Accepted(requests, indices);
            indices[k].value < |kept| && kept[indices[k].value] == requests[k]
  {
    var last := |requests| - 1;
    assert |indices| == |requests|;
    hide Accepted, Numbered;
    NumberedStart(requests, indices);
    if k < last {
      NumberedMeans(requests[..last], indices[..last], k);
    }
  }

  lemma {:induction false} NumberedInOrder(requests: seq<SlotConfig>, indices: seq<Option<nat>>, j: nat, k: nat)
    requires Numbered(requests, indices) && j < k < |indices| && indices[j].Some? && indices[k].Some?
    ensures indices[j].value < indices[k].value
  {
    var last := |requests| - 1;
    assert |indices| == |requests|;
    hide Accepted, Numbered;
    NumberedStart(requests, indices);
    if k < last {
      NumberedInOrder(requests[..last], indices[..last], j, k);
    } else {
      NumberedMeans(requests[..last], indices[..last], j);
    }
  }

  lemma {:induction false} KeptIsNumbered(requests: seq<SlotConfig>, indices: seq<Option<nat>>, v: nat)
    requires Numbered(requests, indices) && v < |Accepted(requests, indices)|
    ensures exists k :: 0 <= k < |indices| && indices[k] == Some(v)
  {
    assert requests != [];
    hide Accepted, Numbered;
    var last := |requests| - 1;
    NumberedStart(requests, indices);
    if v < |Accepted(requests[..last], indices[..last])| {
      KeptIsNumbered(requests[..last], indices[..last], v);
      var k :| 0 <= k < last && indices[..last][k] == Some(v);
      assert indices[k] == Some(v);
    } else {
      assert indices[last] == Some(v);
    }
  }

  /** The teardown of the kept configurations, read through the indices the caller got. */
  lemma {:induction false} TeardownByIndex(callbacks: seq<Callback>, inits: seq<Callback>, requests: seq<SlotConfig>,
      indices: seq<Option<nat>>, executors: nat)
    requires Numbered(requests, indices)
    requires var kept := Accepted(requests, indices); callbacks == inits + AllCallbacks(kept, executors, |kept|)
    ensures var calls := callbacks[|inits|..];
            && InTeardownOrder(calls)
            && (forall k, i: nat :: 0 <= k < |requests| && indices[k].Some? ==>
                  (Destroyed(indices[k].value, i) in calls <==> i < executors && requests[k].hasDestroy))
            && (forall e :: e in calls ==> exists k :: 0 <= k < |indices| && indices[k] == Some(e.slot))
  {
    var kept, calls := Accepted(requests, indices), callbacks[|inits|..];
    AllCallbacksAre(kept, executors, |kept|);
    assert calls == AllCallbacks(kept, executors, |kept|);
    hide InTeardownOrder, Accepted, AllCallbacks;
    forall k, i: nat | 0 <= k < |requests| && indices[k].Some?
      ensures Destroyed(indices[k].value, i) in calls <==> i < executors && requests[k].hasDestroy {
      NumberedMeans(requests, indices, k);
    }
    forall e | e in calls ensures exists k :: 0 <= k < |indices| && indices[k] == Some(e.slot) {
      KeptIsNumbered(requests, indices, e.slot);
    }
  }

  /**
   * A whole life under any pattern of refused requests: the arena ends as it began, each accepted
   * registration gets its own index, and exactly the accepted ones are destroyed.
   */
  method Life(arena: Arena, threadCount: nat, requests: seq<SlotConfig>)
    returns (created: bool, indices: seq<Option<nat>>, callbacks: seq<Callback>, ghost inits: seq<Callback>)
    requires arena.Valid() && Foreign(arena.live) == arena.live
    modifies arena
    ensures arena.live == old(arena.live)
    ensures |indices| == if created then |requests| else 0
    ensures forall e :: e in inits ==> e.Initialised?
    ensures created ==> Numbered(requests, indices)
    ensures forall j, k :: 0 <= j < k < |indices| && indices[j].Some? && indices[k].Some? ==>
              indices[j].value < indices[k].value
    ensures created ==> var kept := Accepted(requests, indices);
                        callbacks == inits + AllCallbacks(kept, threadCount + 1, |kept|)
    ensures created ==>
              var destroyed := callbacks[|inits|..];
              && InTeardownOrder(destroyed)
              && (forall k, i: nat :: 0 <= k < |requests| && indices[k].Some? ==>
                    (Destroyed(indices[k].value, i) in destroyed <==> i <= threadCount && requests[k].hasDestroy))
              && (forall e :: e in destroyed ==> exists k :: 0 <= k < |requests| && indices[k] == Some(e.slot))
  {
    hide Foreign, Exact, Filled, Empty, InTeardownOrder, WorkerCallbacks, AllCallbacks, TearsDown, Accepted;
    hide ContextMemory.Registered, SameUpTo, Numbered;
    indices, callbacks, inits := [], [], [];
    var c := ContextMemory.Create(arena, threadCount);
    created := c != null;
    if !created {
      return;
    }
    NoneYet();
    assert requests[..0] == [];
    for k := 0 to |requests|
      invariant fresh(c) && c.Valid() && c.arena == arena && c.threadCount == threadCount
      invariant |indices| == k && c.slotCount <= |c.slotConfigs|
      invariant c.slotConfigs[..c.slotCount] == Accepted(requests[..k], indices)
      invariant Numbered(requests[..k], indices)
      invariant forall e :: e in c.callbacks ==> e.Initialised?
      invariant Foreign(arena.live) == old(arena.live)
    {
      var index := c.RegisterSlot(requests[k]);
      c.CommittedFit();
      NumberedNext(requests, indices, index);
      AcceptedNext(requests, indices, index);
      indices := indices + [index];
    }
    assert requests[..|requests|] == requests;
    inits := c.callbacks;
    OnlyCommittedMatter(c.slotConfigs, Accepted(requests, indices), threadCount + 1, c.slotCount);
    c.Destroy();
    callbacks := c.callbacks;
    TeardownByIndex(callbacks, inits, requests, indices, threadCount + 1);
    forall j, k | 0 <= j < k < |indices| && indices[j].Some? && indices[k].Some?
      ensures indices[j].value < indices[k].value {
      NumberedInOrder(requests, indices, j, k);
    }
  }

  lemma NoneYet()
    ensures Accepted([], []) == [] && Numbered([], [])
  {
  }

  lemma AcceptedNext(requests: seq<SlotConfig>, indices: seq<Option<nat>>, index: Option<nat>)
    requires |indices| < |requests|
    ensures Accepted(requests[..|indices| + 1], indices + [index])
         == Accepted(requests[..|indices|], indices) + if index.Some? then [requests[|indices|]] else []
  {
    var k := |indices|;
    assert requests[..k + 1][..k] == requests[..k] && (indices + [index])[..k] == indices;
  }

  lemma NumberedNext(requests: seq<SlotConfig>, indices: seq<Option<nat>>, index: Option<nat>)
    requires |indices| < |requests|
    requires Numbered(requests[..|indices|], indices)
    requires index.Some? ==> index.value == |Accepted(requests[..|indices|], indices)|
    ensures Numbered(requests[..|indices| + 1], indices + [index])
  {
    var k, longer := |indices|, indices + [index];
    hide Accepted;
    forall j | 0 <= j <= k && longer[j].Some?
      ensures longer[j].value == |Accepted(requests[..k + 1][..j], longer[..j])| {
      assert requests[..k + 1][..j] == requests[..k][..j] == requests[..j] && longer[..j] == indices[..j];
      if j == k {
        assert indices[..k] == indices;
      }
    }
  }
}
