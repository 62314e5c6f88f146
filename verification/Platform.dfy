/**
 * Choosing physical cores. The topology is what the core_id files say, CPU by CPU, up to the
 * first CPU that has no file.
 */
module Platform {
  import opened Options
  import Words

  const MAX_CPUS: nat := 1024

  datatype Entry = Unreadable | CoreId(id: int)

  type Topology = seq<Entry>

  predicate Usable(e: Entry) {
    e.CoreId? && 0 <= e.id < MAX_CPUS
  }

  /** How many CPUs the scans look at. */
  function Scanned(topology: Topology): (n: nat)
    ensures n <= |topology| && n <= 1024 && (n == |topology| || n == 1024)
  {
    if |topology| < MAX_CPUS then |topology| else MAX_CPUS
  }

  /** The first CPU of its core. */
  predicate Leads(topology: Topology, cpu: nat)
    requires cpu < |topology|
  {
    Usable(topology[cpu]) && forall earlier :: 0 <= earlier < cpu ==> topology[earlier] != topology[cpu]
  }

  /** The leading CPUs among the first `n`, in order: one per distinct core. */
  function Leaders(topology: Topology, n: nat): (cpus: seq<nat>)
    requires n <= |topology|
    ensures forall k :: 0 <= k < |cpus| ==> cpus[k] < n && Leads(topology, cpus[k])
    ensures forall j, k :: 0 <= j < k < |cpus| ==> cpus[j] < cpus[k]
  {
    if n == 0 then []
    else if Leads(topology, n - 1) then Leaders(topology, n - 1) + [n - 1]
    else Leaders(topology, n - 1)
  }

  /** The core ids of the first `n` CPUs. */
  function CoreIds(topology: Topology, n: nat): set<int>
    requires n <= |topology|
  {
    set cpu | 0 <= cpu < n && Usable(topology[cpu]) :: topology[cpu].id
  }

  lemma CoreIdsAre(topology: Topology, n: nat, id: int)
    requires n <= |topology|
    ensures id in CoreIds(topology, n) <==>
              0 <= id < 1024 && exists cpu :: 0 <= cpu < n && topology[cpu] == CoreId(id)
  {
  }

  /** There are as many leaders as distinct core ids. */
  lemma {:induction false} LeadersCountCores(topology: Topology, n: nat)
    requires n <= |topology|
    ensures |Leaders(topology, n)| == |CoreIds(topology, n)|
  {
    if n > 0 {
      LeadersCountCores(topology, n - 1);
      var before, after := CoreIds(topology, n - 1), CoreIds(topology, n);
      if Usable(topology[n - 1]) {
        assert after == before + {topology[n - 1].id};
        if Leads(topology, n - 1) {
          assert topology[n - 1].id !in before;
        } else {
          var earlier :| 0 <= earlier < n - 1 && topology[earlier] == topology[n - 1];
          assert topology[earlier].id in before;
        }
      } else {
        assert after == before;
      }
    }
  }

  lemma {:induction false} LeadersGrow(topology: Topology, m: nat, n: nat)
    requires m <= n <= |topology|
    ensures Leaders(topology, m) <= Leaders(topology, n)
  {
    if m < n {
      LeadersGrow(topology, m, n - 1);
    }
  }

  /** What `seen_core_ids` holds after `n` CPUs. */
  ghost predicate SeenMatches(topology: Topology, n: nat, seen: seq<bool>)
    requires n <= |topology|
  {
    |seen| == MAX_CPUS && forall id :: 0 <= id < MAX_CPUS ==> (seen[id] <==> id in CoreIds(topology, n))
  }

  lemma UnseenMeansLeads(topology: Topology, cpu: nat, seen: seq<bool>)
    requires cpu < |topology| && SeenMatches(topology, cpu, seen) && Usable(topology[cpu])
    ensures !seen[topology[cpu].id] <==> Leads(topology, cpu)
    ensures SeenMatches(topology, cpu + 1, seen[topology[cpu].id := true])
  {
    var id := topology[cpu].id;
    if !Leads(topology, cpu) {
      var earlier :| 0 <= earlier < cpu && topology[earlier] == topology[cpu];
      assert id in CoreIds(topology, cpu);
    }
    assert CoreIds(topology, cpu + 1) == CoreIds(topology, cpu) + {id};
  }

  lemma UnusableChangesNothing(topology: Topology, cpu: nat)
    requires cpu < |topology| && !Usable(topology[cpu])
    ensures CoreIds(topology, cpu + 1) == CoreIds(topology, cpu) && !Leads(topology, cpu)
  {
  }

  /** Number of distinct physical cores, or the online CPU count when no core id can be read. */
  method PhysicalCoreCount(topology: Topology, onlineCpus: int) returns (count: nat)
    ensures CoreIds(topology, Scanned(topology)) != {} ==> count == |CoreIds(topology, Scanned(topology))|
    ensures CoreIds(topology, Scanned(topology)) == {} ==> count == (if onlineCpus < 1 then 1 else onlineCpus)
    ensures count >= 1
  {
    var seen := new bool[MAX_CPUS](i => false);
    count := 0;
    for cpu := 0 to MAX_CPUS
      invariant cpu <= Scanned(topology)
      invariant SeenMatches(topology, cpu, seen[..]) && count == |Leaders(topology, cpu)|
    {
      if cpu >= |topology| {
        break;
      }
      if Usable(topology[cpu]) {
        UnseenMeansLeads(topology, cpu, seen[..]);
        if !seen[topology[cpu].id] {
          seen[topology[cpu].id] := true;
          count := count + 1;
        } else {
          assert seen[..][topology[cpu].id := true] == seen[..];
        }
      } else {
        UnusableChangesNothing(topology, cpu);
      }
    }
    LeadersCountCores(topology, Scanned(topology));
    if count == 0 {
      count := if onlineCpus < 1 then 1 else onlineCpus;
    }
  }

  /** The CPU that the pin scan picks for a core index. */
  function PinTarget(topology: Topology, index: nat): Option<nat> {
    var leaders := Leaders(topology, Scanned(topology));
    if index < |leaders| then Some(leaders[index]) else None
  }

  /** The CPU that brings in the distinct core with this index, counting from zero. */
  lemma PinTargetIs(topology: Topology, index: nat)
    ensures var cpu := PinTarget(topology, index);
            && (cpu.Some? <==> index < |CoreIds(topology, Scanned(topology))|)
            && (cpu.Some? ==> cpu.value < Scanned(topology) && Leads(topology, cpu.value)
                              && |CoreIds(topology, cpu.value)| == index)
  {
    var n := Scanned(topology);
    LeadersCountCores(topology, n);
    if index < |Leaders(topology, n)| {
      LeadersBefore(topology, n, index);
      LeadersCountCores(topology, Leaders(topology, n)[index]);
    }
  }

  lemma {:induction false} LeadersBefore(topology: Topology, n: nat, k: nat)
    requires n <= |topology| && k < |Leaders(topology, n)|
    ensures |Leaders(topology, Leaders(topology, n)[k])| == k
  {
    if k < |Leaders(topology, n - 1)| {
      LeadersBefore(topology, n - 1, k);
    }
  }

  method PinToPhysicalCore(topology: Topology, index: nat) returns (cpu: Option<nat>)
    ensures cpu == PinTarget(topology, index)
    ensures cpu.Some? <==> index < |CoreIds(topology, Scanned(topology))|
    ensures cpu.Some? ==> cpu.value < Scanned(topology) && Leads(topology, cpu.value)
                          && |CoreIds(topology, cpu.value)| == index
  {
    PinTargetIs(topology, index);
    var seen := new bool[MAX_CPUS](i => false);
    assert SeenMatches(topology, 0, seen[..]);
    hide CoreIds, Leads, SeenMatches;
    var found := 0;
    for i := 0 to MAX_CPUS
      invariant i <= Scanned(topology)
      invariant SeenMatches(topology, i, seen[..]) && found == |Leaders(topology, i)| <= index
    {
      if i >= |topology| {
        break;
      }
      if Usable(topology[i]) {
        UnseenMeansLeads(topology, i, seen[..]);
        if !seen[topology[i].id] {
          seen[topology[i].id] := true;
          if found == index {
            LeadersGrow(topology, i + 1, Scanned(topology));
            return Some(i);
          }
          found := found + 1;
        } else {
          assert seen[..][topology[i].id := true] == seen[..];
        }
      } else {
        UnusableChangesNothing(topology, i);
      }
    }
    return None;
  }

  /** The pin scan succeeds exactly below the core count, and different indices land on different cores. */
  lemma PinsAreDistinctCores(topology: Topology, j: nat, k: nat)
    ensures PinTarget(topology, k).Some? <==> k < |CoreIds(topology, Scanned(topology))|
    ensures j != k && PinTarget(topology, j).Some? && PinTarget(topology, k).Some? ==>
              topology[PinTarget(topology, j).value] != topology[PinTarget(topology, k).value]
  {
    LeadersCountCores(topology, Scanned(topology));
    var leaders := Leaders(topology, Scanned(topology));
    if j < |leaders| && k < |leaders| && j != k {
      assert Leads(topology, leaders[j]) && Leads(topology, leaders[k]);
      assert leaders[j] < leaders[k] || leaders[k] < leaders[j];
    }
  }

  // ----- accepting a configuration

  /** The core count that create works with. */
  function Cores(topology: Topology, onlineCpus: int): (n: nat)
    ensures CoreIds(topology, Scanned(topology)) != {} ==> n == |CoreIds(topology, Scanned(topology))|
    ensures CoreIds(topology, Scanned(topology)) == {} ==> n >= 1 && n >= onlineCpus && (n == 1 || n == onlineCpus)
  {
    var ids := |CoreIds(topology, Scanned(topology))|;
    if ids > 0 then ids else if onlineCpus < 1 then 1 else onlineCpus
  }

  /** Create's decision on a configuration: the number of background threads, or a refusal. */
  method AcceptConfig(topology: Topology, onlineCpus: int, coreOffset: nat, explicitCount: Option<nat>)
    returns (threads: Option<nat>)
    requires coreOffset < Words.TWO64 && onlineCpus < Words.TWO63
    requires explicitCount.Some? ==> explicitCount.value < Words.TWO64
    ensures threads == Accepted(topology, onlineCpus, coreOffset, explicitCount)
    ensures var ids := |CoreIds(topology, Scanned(topology))|;
            var n := if ids > 0 then ids else if onlineCpus < 1 then 1 else onlineCpus;
            && (explicitCount.None? ==> threads == if coreOffset == 0 then Some(n - 1) else None)
            && (explicitCount.Some? && threads.Some? ==> threads == explicitCount)
            && (explicitCount.Some? ==>
                  (threads.Some? <==>
                   coreOffset < n && (explicitCount == Some(0) || coreOffset + explicitCount.value < n
                                      || 0 <= coreOffset + explicitCount.value - Words.TWO64 < n)))
  {
    CoresFit(topology);
    var cores := PhysicalCoreCount(topology, onlineCpus);
    if coreOffset >= cores {
      return None;
    }
    var threadCount := if explicitCount.Some? then explicitCount.value else if cores > 1 then cores - 1 else 0;
    if coreOffset + threadCount < Words.TWO64 {
      Words.WordFits(coreOffset + threadCount);
    } else {
      Words.DivModUnique(coreOffset + threadCount, Words.TWO64, 1, coreOffset + threadCount - Words.TWO64);
    }
    if threadCount > 0 && (coreOffset + threadCount) % Words.TWO64 >= cores {
      return None;
    }
    return Some(threadCount);
  }

  function Accepted(topology: Topology, onlineCpus: int, coreOffset: nat, explicitCount: Option<nat>): Option<nat> {
    var cores := Cores(topology, onlineCpus);
    var threadCount := if explicitCount.Some? then explicitCount.value else cores - 1;
    if coreOffset < cores && (threadCount == 0 || (coreOffset + threadCount) % Words.TWO64 < cores)
    then Some(threadCount) else None
  }

  /** The core index that executor `a` asks for: main is 0, background worker i is i + 1. */
  function AskedIndex(coreOffset: nat, a: nat): nat {
    (coreOffset + a) % Words.TWO64
  }

  /** Main and every background thread get a CPU, all on different cores. */
  ghost predicate Isolated(topology: Topology, coreOffset: nat, threads: nat) {
    && (forall a :: 0 <= a <= threads ==> PinTarget(topology, AskedIndex(coreOffset, a)).Some?)
    && (forall a, b :: 0 <= a < b <= threads ==>
          && PinTarget(topology, AskedIndex(coreOffset, a)).Some?
              && PinTarget(topology, AskedIndex(coreOffset, b)).Some?
          && topology[PinTarget(topology, AskedIndex(coreOffset, a)).value]
             != topology[PinTarget(topology, AskedIndex(coreOffset, b)).value])
  }

  lemma AskedIndexExact(coreOffset: nat, a: nat)
    requires coreOffset + a < Words.TWO64
    ensures AskedIndex(coreOffset, a) == coreOffset + a
  {
  }

  /**
   * With at least one readable core id, an accepted configuration isolates its threads exactly
   * when `core_offset + worker_count` does not overflow.
   */
  lemma AcceptedIsIsolatedExactly(topology: Topology, onlineCpus: int, coreOffset: nat, explicitCount: Option<nat>)
    requires coreOffset < Words.TWO64 && (explicitCount.Some? ==> explicitCount.value < Words.TWO64)
    requires CoreIds(topology, Scanned(topology)) != {}
    requires Accepted(topology, onlineCpus, coreOffset, explicitCount).Some?
    ensures var threads := Accepted(topology, onlineCpus, coreOffset, explicitCount).value;
            Isolated(topology, coreOffset, threads) <==> coreOffset + threads < Words.TWO64
  {
    var cores := |CoreIds(topology, Scanned(topology))|;
    assert cores > 0;
    CoresFit(topology);
    var threads := Accepted(topology, onlineCpus, coreOffset, explicitCount).value;
    if coreOffset + threads < Words.TWO64 {
      forall a | 0 <= a <= threads ensures PinTarget(topology, AskedIndex(coreOffset, a)).Some? {
        AskedIndexExact(coreOffset, a);
        PinsAreDistinctCores(topology, 0, coreOffset + a);
      }
      forall a, b | 0 <= a < b <= threads
        ensures PinTarget(topology, AskedIndex(coreOffset, a)).Some?
            && PinTarget(topology, AskedIndex(coreOffset, b)).Some?
        ensures topology[PinTarget(topology, AskedIndex(coreOffset, a)).value]
                != topology[PinTarget(topology, AskedIndex(coreOffset, b)).value] {
        AskedIndexExact(coreOffset, a);
        AskedIndexExact(coreOffset, b);
        PinsAreDistinctCores(topology, coreOffset + a, coreOffset + b);
        PinsAreDistinctCores(topology, coreOffset + b, coreOffset + a);
      }
    } else {
      var outside := cores - coreOffset;
      AskedIndexExact(coreOffset, outside);
      PinsAreDistinctCores(topology, 0, cores);
      assert !PinTarget(topology, AskedIndex(coreOffset, outside)).Some?;
    }
  }

  /** Two cores, offset one and a worker count of 2^64 - 1: the sum wraps to zero and the request is accepted. */
  lemma OverflowIsAccepted()
    ensures var topology := [CoreId(0), CoreId(1)];
            && Accepted(topology, 2, 1, Some(Words.TWO64 - 1)) == Some(Words.TWO64 - 1)
            && !Isolated(topology, 1, Words.TWO64 - 1)
  {
    var topology := [CoreId(0), CoreId(1)];
    assert topology[0].id in CoreIds(topology, 2);
    assert topology[1].id in CoreIds(topology, 2);
    assert CoreIds(topology, 2) == {0, 1};
    AcceptedIsIsolatedExactly(topology, 2, 1, Some(Words.TWO64 - 1));
  }

  lemma CoresFit(topology: Topology)
    ensures |CoreIds(topology, Scanned(topology))| <= MAX_CPUS
  {
    LeadersCountCores(topology, Scanned(topology));
    LeadersFit(topology, Scanned(topology));
  }

  lemma {:induction false} LeadersFit(topology: Topology, n: nat)
    requires n <= |topology|
    ensures |Leaders(topology, n)| <= n
  {
    if n > 0 {
      LeadersFit(topology, n - 1);
    }
  }

  /**
   * An explicit worker count is accepted as documented, when `core_offset + N` is below the core
   * count, exactly unless a usable offset makes that sum overflow.
   */
  lemma ExplicitCountAsDocumented(topology: Topology, onlineCpus: int, coreOffset: nat, n: nat)
    requires coreOffset < Words.TWO64 && n < Words.TWO64 && onlineCpus < Words.TWO63
    ensures var accepted, cores := Accepted(topology, onlineCpus, coreOffset, Some(n)), Cores(topology, onlineCpus);
            (accepted == if coreOffset + n < cores then Some(n) else None)
            <==> !(coreOffset < cores && coreOffset + n >= Words.TWO64)
  {
    CoresFit(topology);
    if coreOffset + n < Words.TWO64 {
      Words.WordFits(coreOffset + n);
    } else {
      Words.DivModUnique(coreOffset + n, Words.TWO64, 1, coreOffset + n - Words.TWO64);
    }
  }

  /** Without an explicit worker count, only core offset zero is ever accepted. */
  lemma DefaultCountNeedsOffsetZero(topology: Topology, onlineCpus: int, coreOffset: nat)
    requires onlineCpus < Words.TWO63
    ensures Accepted(topology, onlineCpus, coreOffset, None).Some? <==> coreOffset == 0
  {
    CoresFit(topology);
    var cores := Cores(topology, onlineCpus);
    if coreOffset < cores {
      Words.WordFits(coreOffset + cores - 1);
    }
  }
}
