/**
 * Cutting a range into one slice per executor: the balanced split of dispatch and of the
 * parallel for, the growth of the dispatch buffer, and the strided iterations, with
 * every computation kept inside 64-bit words.
 */
module Split {
  import Words

  function Min(a: nat, b: nat): nat { if a < b then a else b }

  /** Size of slice `i` of `total` items cut `parts` ways. */
  function Count(total: nat, parts: nat, i: nat): nat
    requires parts >= 1
  {
    total / parts + (if i < total % parts then 1 else 0)
  }

  /** Where slice `i` starts. */
  function Start(total: nat, parts: nat, i: nat): nat
    requires parts >= 1
  {
    i * (total / parts) + Min(i, total % parts)
  }

  lemma StartNext(total: nat, parts: nat, i: nat)
    requires parts >= 1
    ensures Start(total, parts, i + 1) == Start(total, parts, i) + Count(total, parts, i)
    ensures Start(total, parts, 0) == 0
  {
    assert (i + 1) * (total / parts) == i * (total / parts) + total / parts;
  }

  /** The slices exhaust the range. */
  lemma StartLast(total: nat, parts: nat)
    requires parts >= 1
    ensures Start(total, parts, parts) == total
  {
    assert total == parts * (total / parts) + total % parts;
  }

  lemma {:induction false} StartMonotone(total: nat, parts: nat, i: nat, j: nat)
    requires parts >= 1 && i <= j
    ensures Start(total, parts, i) <= Start(total, parts, j)
    decreases j - i
  {
    if i < j {
      StartMonotone(total, parts, i + 1, j);
      StartNext(total, parts, i);
    }
  }

  /** Slices are balanced, longer ones first, and none is empty when there are at least as many items as slices. */
  lemma Balanced(total: nat, parts: nat, i: nat, j: nat)
    requires parts >= 1 && i < parts && j < parts
    ensures Count(total, parts, i) <= Count(total, parts, j) + 1
    ensures i <= j ==> Count(total, parts, j) <= Count(total, parts, i)
    ensures total >= parts ==> Count(total, parts, i) >= 1
    ensures Start(total, parts, i) + Count(total, parts, i) <= total
  {
    StartNext(total, parts, i);
    StartMonotone(total, parts, i + 1, parts);
    StartLast(total, parts);
    if total >= parts {
      QuotientPositive(total, parts);
    }
  }

  lemma QuotientPositive(total: nat, parts: nat)
    requires total >= parts >= 1
    ensures total / parts >= 1
  {
    assert total == (total / parts) * parts + total % parts;
  }

  /** Every position lies in exactly one slice. */
  lemma {:induction false} FindSlice(total: nat, parts: nat, n: nat, x: nat) returns (i: nat)
    requires parts >= 1 && x < Start(total, parts, n)
    ensures i < n && Start(total, parts, i) <= x < Start(total, parts, i) + Count(total, parts, i)
    decreases n
  {
    StartNext(total, parts, 0);
    assert n > 0;
    StartNext(total, parts, n - 1);
    if x < Start(total, parts, n - 1) {
      i := FindSlice(total, parts, n - 1, x);
    } else {
      i := n - 1;
    }
  }

  lemma OneSliceOnly(total: nat, parts: nat, i: nat, j: nat, x: nat)
    requires parts >= 1 && i < j
    requires Start(total, parts, i) <= x < Start(total, parts, i) + Count(total, parts, i)
    ensures x < Start(total, parts, j)
  {
    StartNext(total, parts, i);
    StartMonotone(total, parts, i + 1, j);
  }

  /** The slices themselves. */
  function Slice<T>(items: seq<T>, parts: nat, i: nat): seq<T>
    requires parts >= 1 && i < parts
  {
    Balanced(|items|, parts, i, i);
    items[Start(|items|, parts, i)..Start(|items|, parts, i) + Count(|items|, parts, i)]
  }

  function Flatten<T>(parts: seq<seq<T>>): seq<T> {
    if parts == [] then [] else Flatten(parts[..|parts| - 1]) + parts[|parts| - 1]
  }

  lemma {:induction false} SlicesUpTo<T>(items: seq<T>, parts: nat, n: nat)
    requires parts >= 1 && n <= parts
    ensures Start(|items|, parts, n) <= |items|
    ensures Flatten(seq(n, i requires 0 <= i < n => Slice(items, parts, i))) == items[..Start(|items|, parts, n)]
  {
    StartMonotone(|items|, parts, n, parts);
    StartLast(|items|, parts);
    StartNext(|items|, parts, 0);
    hide Start, Count;
    if n > 0 {
      SlicesUpTo(items, parts, n - 1);
      StartNext(|items|, parts, n - 1);
      var all := seq(n, i requires 0 <= i < n => Slice(items, parts, i));
      assert all[..n - 1] == seq(n - 1, i requires 0 <= i < n - 1 => Slice(items, parts, i));
      var from, to := Start(|items|, parts, n - 1), Start(|items|, parts, n);
      assert Flatten(all) == items[..from] + items[from..to];
    }
  }

  /** Put end to end, the slices are the whole sequence: nothing lost, repeated or reordered. */
  lemma SlicesAreAll<T>(items: seq<T>, parts: nat)
    requires parts >= 1
    ensures Flatten(seq(parts, i requires 0 <= i < parts => Slice(items, parts, i))) == items
  {
    SlicesUpTo(items, parts, parts);
    StartLast(|items|, parts);
  }

  /** A cut into consecutive pieces whose sizes differ by at most one, the longer ones first: there is only one. */
  ghost predicate EvenCut<T>(items: seq<T>, pieces: seq<seq<T>>) {
    && Flatten(pieces) == items
    && (forall i, j :: 0 <= i < j < |pieces| ==> |pieces[j]| <= |pieces[i]| <= |pieces[j]| + 1)
  }

  lemma SlicesAreEven<T>(items: seq<T>, parts: nat)
    requires parts >= 1
    ensures EvenCut(items, seq(parts, i requires 0 <= i < parts => Slice(items, parts, i)))
  {
    SlicesAreAll(items, parts);
    var pieces := seq(parts, i requires 0 <= i < parts => Slice(items, parts, i));
    forall i: nat, j: nat | i < j < parts ensures |pieces[j]| <= |pieces[i]| <= |pieces[j]| + 1 {
      Balanced(|items|, parts, i, j);
      SliceSize(items, parts, i);
      SliceSize(items, parts, j);
    }
  }

  lemma SliceSize<T>(items: seq<T>, parts: nat, i: nat)
    requires parts >= 1 && i < parts
    ensures |Slice(items, parts, i)| == Count(|items|, parts, i)
  {
    Balanced(|items|, parts, i, i);
  }

  /** The loop of dispatch that fills in the work records. */
  method AssignSlices(total: nat, offsets: array<nat>, counts: array<nat>)
    requires offsets.Length == counts.Length >= 1 && offsets != counts
    requires total < Words.TWO64
    modifies offsets, counts
    ensures forall i :: 0 <= i < offsets.Length ==>
              offsets[i] == Start(total, offsets.Length, i) && counts[i] == Count(total, offsets.Length, i)
  {
    var effective := offsets.Length;
    var base, extra := total / effective, total % effective;
    var offset := 0;
    StartNext(total, effective, 0);
    for i := 0 to effective
      invariant offset == Start(total, effective, i)
      invariant forall j :: 0 <= j < i ==>
                  offsets[j] == Start(total, effective, j) && counts[j] == Count(total, effective, j)
    {
      var count := base + (if i < extra then 1 else 0);
      offsets[i], counts[i] := offset, count;
      StartNext(total, effective, i);
      offset := offset + count;
    }
  }

  /** The capacity that doubling arrives at; a capacity of zero would never grow. */
  function Grown(capacity: nat, needed: nat): (grown: nat)
    ensures capacity <= grown && (capacity > 0 ==> needed <= grown)
    ensures grown == capacity || grown < 2 * needed
    decreases if capacity < needed then needed - capacity else 0
  {
    if needed <= capacity || capacity == 0 then capacity else Grown(2 * capacity, needed)
  }

  lemma DoublingFits(j: nat)
    requires Words.Pow2(j) < Words.TWO63
    ensures Words.Doubled(Words.Pow2(j)) == 2 * Words.Pow2(j) == Words.Pow2(j + 1) <= Words.TWO63
  {
    Words.PowerGap(j);
    Words.DoubledTimesIs(j + 1);
    Words.DoubledIs(Words.Pow2(j));
  }

  /** Doubling the dispatch buffer until it holds every staged task, in 64-bit words. */
  method GrowCapacity(capacity: nat, needed: nat, ghost k: nat) returns (grown: nat)
    requires capacity == Words.Pow2(k) <= Words.TWO63 && needed <= Words.TWO63
    ensures grown == Grown(capacity, needed) && grown <= Words.TWO63
    ensures exists j: nat :: grown == Words.Pow2(j)
  {
    hide Words.Pow2, Words.Doubled;
    grown := capacity;
    ghost var j := k;
    while grown < needed
      invariant grown == Words.Pow2(j) <= Words.TWO63 && capacity <= grown
      invariant Grown(grown, needed) == Grown(capacity, needed)
      decreases Words.TWO63 - grown
    {
      DoublingFits(j);
      grown := Words.Doubled(grown);
      j := j + 1;
    }
  }

  lemma {:induction false} GrownFits(capacity: nat, needed: nat, k: nat) returns (j: nat)
    requires capacity == Words.Pow2(k) <= Words.TWO63 && needed <= Words.TWO63
    ensures Grown(capacity, needed) == Words.Pow2(j) <= Words.TWO63
    decreases if capacity < needed then needed - capacity else 0
  {
    if needed <= capacity {
      j := k;
    } else {
      Words.PowerGap(k);
      Words.DoubledTimesIs(k + 1);
      j := GrownFits(2 * capacity, needed, k + 1);
    }
  }

  // ----- strided iterations

  /** Number of iterations of a non-empty range. */
  function Total(start: nat, end: nat, step: nat): nat
    requires start < end && step >= 1
  {
    1 + (end - start - 1) / step
  }

  function Iteration(start: nat, step: nat, k: nat): nat {
    start + k * step
  }

  /** `Total` is exact: iteration k is inside the range exactly when k is below it. */
  lemma TotalExact(start: nat, end: nat, step: nat, k: nat)
    requires start < end && step >= 1
    ensures Iteration(start, step, k) < end <==> k < Total(start, end, step)
  {
    var span := end - start - 1;
    var q, r := span / step, span % step;
    assert span == q * step + r;
    if k <= q {
      Words.Scale(k, q, step);
    } else {
      Words.Scale(q + 1, k, step);
    }
  }

  /** No index computed on the way leaves the 64-bit range. */
  lemma IterationFits(start: nat, end: nat, step: nat, k: nat)
    requires start < end < Words.TWO64 && 1 <= step < Words.TWO64 && k < Total(start, end, step)
    ensures k * step < Words.TWO64 && Iteration(start, step, k) < Words.TWO64
    ensures Total(start, end, step) < Words.TWO64
  {
    TotalExact(start, end, step, k);
    QuotientSmall(end - start - 1, step);
  }

  lemma QuotientSmall(x: nat, m: nat)
    requires m >= 1
    ensures x / m <= x
  {
    var q := x / m;
    assert x == q * m + x % m;
    Words.Scale(1, m, q);
  }

  /** `count` consecutive iterations, from the given one on. */
  function Iterations(start: nat, step: nat, from: nat, count: nat): (r: seq<nat>)
    ensures |r| == count
    ensures forall k :: 0 <= k < count ==> r[k] == Iteration(start, step, from + k)
  {
    if count == 0 then []
    else Iterations(start, step, from, count - 1) + [Iteration(start, step, from + count - 1)]
  }

  lemma IterationsDistinct(start: nat, step: nat, i: nat, j: nat)
    requires step >= 1 && i < j
    ensures Iteration(start, step, i) < Iteration(start, step, j)
  {
    Words.Scale(i + 1, j, step);
    assert (i + 1) * step == i * step + step;
  }

  lemma IterationIndex(start: nat, end: nat, step: nat, x: nat)
    requires start < end && step >= 1 && start <= x < end && (x - start) % step == 0
    ensures (x - start) / step < Total(start, end, step)
    ensures Iteration(start, step, (x - start) / step) == x
  {
    var k := (x - start) / step;
    assert x - start == k * step;
    TotalExact(start, end, step, k);
  }

  lemma IterationOnStride(start: nat, end: nat, step: nat, k: nat)
    requires start < end && step >= 1 && k < Total(start, end, step)
    ensures var x := Iteration(start, step, k); start <= x < end && (x - start) % step == 0
  {
    TotalExact(start, end, step, k);
    Words.DivModUnique(k * step, step, k, 0);
  }

  /** The iterations are the indices of the stride inside the range, each once. */
  lemma IterationsExact(start: nat, end: nat, step: nat, x: nat)
    requires start < end && step >= 1
    ensures var all := Iterations(start, step, 0, Total(start, end, step));
            && (x in all <==> start <= x < end && (x - start) % step == 0)
            && (forall i, j :: 0 <= i < j < |all| ==> all[i] != all[j])
  {
    hide Iteration, Total;
    var n := Total(start, end, step);
    var all := Iterations(start, step, 0, n);
    forall i: nat, j: nat | i < j < n ensures all[i] != all[j] {
      IterationsDistinct(start, step, i, j);
    }
    if x in all {
      var k: nat :| k < n && all[k] == x;
      IterationOnStride(start, end, step, k);
    }
    if start <= x < end && (x - start) % step == 0 {
      IterationIndex(start, end, step, x);
      assert all[(x - start) / step] == x;
    }
  }

  /** A chunk's start, computed modulo 2^64 as the program does, is its ideal start. */
  lemma ChunkStartExact(start: nat, end: nat, step: nat, parts: nat, i: nat)
    requires start < end < Words.TWO64 && 1 <= step < Words.TWO64
    requires parts >= 1 && i < parts && Total(start, end, step) >= parts
    ensures var offset := Start(Total(start, end, step), parts, i);
            (start + (offset * step) % Words.TWO64) % Words.TWO64 == Iteration(start, step, offset)
            && offset < Total(start, end, step) < Words.TWO64
  {
    var total := Total(start, end, step);
    Balanced(total, parts, i, i);
    IterationFits(start, end, step, Start(total, parts, i));
    Words.WordFits(Start(total, parts, i) * step);
    Words.WordFits(Iteration(start, step, Start(total, parts, i)));
  }

  lemma ChunkIndexExact(chunkStart: nat, count: nat, step: nat, i: nat)
    requires chunkStart < Words.TWO64 && i < count && Iteration(chunkStart, step, count - 1) < Words.TWO64
    ensures (chunkStart + (i * step) % Words.TWO64) % Words.TWO64 == Iteration(chunkStart, step, i)
  {
    Words.Scale(i, count - 1, step);
    Words.WordFits(i * step);
    Words.WordFits(chunkStart + i * step);
  }

  /** The loop of one chunk, on 64-bit words; `visited` lists the calls of the iteration function. */
  method RunChunk(chunkStart: nat, count: nat, step: nat) returns (visited: seq<nat>)
    requires chunkStart < Words.TWO64 && count < Words.TWO64 && step < Words.TWO64
    requires count > 0 ==> Iteration(chunkStart, step, count - 1) < Words.TWO64
    ensures visited == Iterations(chunkStart, step, 0, count)
  {
    visited := [];
    for i := 0 to count
      invariant visited == Iterations(chunkStart, step, 0, i)
    {
      ChunkIndexExact(chunkStart, count, step, i);
      hide Iteration;
      var index := (chunkStart + (i * step) % Words.TWO64) % Words.TWO64;
      assert index == Iteration(chunkStart, step, i);
      visited := visited + [index];
    }
  }

  datatype Chunk = Chunk(start: nat, count: nat, step: nat)

  /** Chunk `i` of a non-empty range cut `parts` ways. */
  predicate IsChunk(chunk: Chunk, start: nat, end: nat, step: nat, parts: nat, i: nat)
    requires start < end && step >= 1 && parts >= 1
  {
    && chunk.step == step && chunk.count == Count(Total(start, end, step), parts, i) >= 1
    && chunk.start == Iteration(start, step, Start(Total(start, end, step), parts, i))
  }

  /** The loop of the parallel for that cuts the chunks of the workers; main keeps chunk 0. */
  method PlanChunks(start: nat, end: nat, step: nat, chunks: array<Chunk>) returns (mainCount: nat)
    requires start < end < Words.TWO64 && 1 <= step < Words.TWO64
    requires chunks.Length >= 1 && Total(start, end, step) > chunks.Length
    modifies chunks
    ensures mainCount == Count(Total(start, end, step), chunks.Length + 1, 0) >= 1
    ensures forall i :: 0 <= i < chunks.Length ==> IsChunk(chunks[i], start, end, step, chunks.Length + 1, i + 1)
  {
    var parts := chunks.Length + 1;
    PlanStep(start, end, step, parts, 0);
    var total := 1 + (end - start - 1) / step;
    var base, remainder := total / parts, total % parts;
    hide Total, Iteration, Start, Count, IsChunk;
    mainCount := base + (if 0 < remainder then 1 else 0);
    var currentOffset := mainCount;
    for i := 0 to chunks.Length
      invariant currentOffset == Start(total, parts, i + 1)
      invariant forall j :: 0 <= j < i ==> IsChunk(chunks[j], start, end, step, parts, j + 1)
    {
      PlanStep(start, end, step, parts, i + 1);
      var count := base + (if i + 1 < remainder then 1 else 0);
      var chunkStart := (start + (currentOffset * step) % Words.TWO64) % Words.TWO64;
      chunks[i] := Chunk(chunkStart, count, step);
      currentOffset := currentOffset + count;
    }
  }

  lemma PlanStep(start: nat, end: nat, step: nat, parts: nat, i: nat)
    requires start < end < Words.TWO64 && 1 <= step < Words.TWO64
    requires parts >= 1 && i < parts && Total(start, end, step) >= parts
    ensures var total := 1 + (end - start - 1) / step;
            && total == Total(start, end, step)
            && Count(total, parts, i) == total / parts + (if i < total % parts then 1 else 0) >= 1
            && Start(total, parts, i + 1) == Start(total, parts, i) + Count(total, parts, i)
            && Start(total, parts, 0) == 0
            && (start + (Start(total, parts, i) * step) % Words.TWO64) % Words.TWO64
               == Iteration(start, step, Start(total, parts, i))
            && IsChunk(Chunk(Iteration(start, step, Start(total, parts, i)), Count(total, parts, i), step),
                       start, end, step, parts, i)
  {
    var total := Total(start, end, step);
    StartNext(total, parts, i);
    Balanced(total, parts, i, i);
    ChunkStartExact(start, end, step, parts, i);
  }

  lemma IterationShift(start: nat, step: nat, from: nat, k: nat)
    ensures Iteration(Iteration(start, step, from), step, k) == Iteration(start, step, from + k)
  {
    assert (from + k) * step == from * step + k * step;
  }

  /** What chunk `i` visits is slice `i` of all iterations. */
  lemma ChunkIsSlice(start: nat, end: nat, step: nat, parts: nat, i: nat)
    requires start < end && step >= 1 && parts >= 1 && i < parts
    ensures var total := Total(start, end, step);
            Iterations(Iteration(start, step, Start(total, parts, i)), step, 0, Count(total, parts, i))
            == Slice(Iterations(start, step, 0, total), parts, i)
  {
    var total := Total(start, end, step);
    var all := Iterations(start, step, 0, total);
    var from, count := Start(total, parts, i), Count(total, parts, i);
    Balanced(total, parts, i, i);
    var left, right := Iterations(Iteration(start, step, from), step, 0, count), Slice(all, parts, i);
    forall k: nat | k < count ensures left[k] == right[k] {
      assert right[k] == all[from + k];
      IterationShift(start, step, from, k);
    }
    assert |left| == |right|;
  }
}
