/**
 * The one byte buffer of the queue: strides, offsets and sizes as 64-bit words compute them, and
 * exactly when every slot lies inside the block that is asked for.
 */
module QueueBuffer {
  import opened QueueProtocol
  import opened QueueInvariant
  import Words

  const HEADER_BYTES: nat := 8
  const CACHELINE_BYTES: nat := 64

  /** The stride that create computes. */
  function Stride(elementSize: nat): nat {
    Words.AlignUp((HEADER_BYTES + elementSize) % Words.TWO64, CACHELINE_BYTES)
  }

  /** The least multiple of a cache line that holds header and element. */
  function IdealStride(elementSize: nat): nat {
    (HEADER_BYTES + elementSize + CACHELINE_BYTES - 1) / CACHELINE_BYTES * CACHELINE_BYTES
  }

  /** The size that create asks the allocator for. */
  function BufferBytes(capacity: nat, stride: nat): nat {
    (stride * capacity) % Words.TWO64
  }

  function SlotOffset(position: nat, capacity: nat, stride: nat): nat
    requires capacity >= 1
  {
    (Words.BitAnd(position, capacity - 1) * stride) % Words.TWO64
  }

  /** The slots fit in one 64-bit address range: something a caller can check. */
  predicate Sized(elementSize: nat, capacity: nat) {
    IdealStride(elementSize) * capacity < Words.TWO64
  }

  /** Header and element of every position lie inside the block. */
  ghost predicate SlotsFit(elementSize: nat, capacity: nat, stride: nat)
    requires capacity >= 1
  {
    forall p: nat :: SlotOffset(p, capacity, stride) + HEADER_BYTES + elementSize <= BufferBytes(capacity, stride)
  }

  // ----- slots of a buffer that fits

  lemma RowsDisjoint(i: nat, j: nat, stride: nat)
    requires i < j
    ensures i * stride + stride <= j * stride == stride * j
  {
    Words.Scale(i + 1, j, stride);
  }

  lemma OffsetIs(p: nat, capacity: nat, k: nat, stride: nat)
    requires capacity == Words.Pow2(k) && stride * capacity < Words.TWO64
    ensures SlotOffset(p, capacity, stride) == Slot(p, capacity) * stride
    ensures SlotOffset(p, capacity, stride) + stride <= stride * capacity == BufferBytes(capacity, stride)
  {
    MaskIsSlot(p, capacity, k);
    hide Words.BitAnd, Words.Pow2, Slot;
    RowsDisjoint(Slot(p, capacity), capacity, stride);
    Words.WordFits(stride * capacity);
    Words.WordFits(Slot(p, capacity) * stride);
  }

  /** Slots lie inside the buffer, one after the other, header and payload included. */
  lemma SlotsDisjoint(p: nat, q: nat, capacity: nat, k: nat, stride: nat, elementSize: nat)
    requires capacity == Words.Pow2(k) && HEADER_BYTES + elementSize <= stride && stride * capacity < Words.TWO64
    ensures SlotOffset(p, capacity, stride) + HEADER_BYTES + elementSize <= BufferBytes(capacity, stride)
    ensures Slot(p, capacity) < Slot(q, capacity) ==>
              SlotOffset(p, capacity, stride) + HEADER_BYTES + elementSize <= SlotOffset(q, capacity, stride)
  {
    OffsetIs(p, capacity, k, stride);
    OffsetIs(q, capacity, k, stride);
    hide SlotOffset, BufferBytes, Words.Pow2, Slot;
    if Slot(p, capacity) < Slot(q, capacity) {
      RowsDisjoint(Slot(p, capacity), Slot(q, capacity), stride);
    }
  }

  // ----- the exact condition

  /** The word whose low bits the alignment helper clears. */
  function PaddedWord(elementSize: nat): nat {
    ((HEADER_BYTES + elementSize) % Words.TWO64 + CACHELINE_BYTES - 1) % Words.TWO64
  }

  lemma Lines(x: nat)
    ensures x / CACHELINE_BYTES * CACHELINE_BYTES == x - x % CACHELINE_BYTES
    ensures (x - x % CACHELINE_BYTES) % CACHELINE_BYTES == 0
  {
  }

  lemma StrideClears(elementSize: nat)
    ensures Stride(elementSize) == PaddedWord(elementSize) - PaddedWord(elementSize) % CACHELINE_BYTES
  {
    assert Words.Pow2(6) == CACHELINE_BYTES;
    Words.ClearLowBits(PaddedWord(elementSize), 6);
  }

  lemma PaddedFits(elementSize: nat)
    requires HEADER_BYTES + elementSize + CACHELINE_BYTES - 1 < Words.TWO64
    ensures PaddedWord(elementSize) == HEADER_BYTES + elementSize + CACHELINE_BYTES - 1
  {
    Words.WordFits(HEADER_BYTES + elementSize);
    Words.WordFits(HEADER_BYTES + elementSize + CACHELINE_BYTES - 1);
  }

  lemma IdealStrideIs(elementSize: nat)
    ensures HEADER_BYTES + elementSize <= IdealStride(elementSize) < HEADER_BYTES + elementSize + CACHELINE_BYTES
    ensures HEADER_BYTES + elementSize + CACHELINE_BYTES - 1 >= Words.TWO64 ==> IdealStride(elementSize) >= Words.TWO64
  {
    Lines(HEADER_BYTES + elementSize + CACHELINE_BYTES - 1);
  }

  /** The computed stride is a multiple of a cache line, and the ideal one unless the sum wraps. */
  lemma StrideIs(elementSize: nat)
    ensures Stride(elementSize) % CACHELINE_BYTES == 0
    ensures HEADER_BYTES + elementSize + CACHELINE_BYTES - 1 < Words.TWO64 ==> Stride(elementSize) == IdealStride(elementSize)
    ensures HEADER_BYTES + elementSize <= IdealStride(elementSize) < HEADER_BYTES + elementSize + CACHELINE_BYTES
    ensures HEADER_BYTES + elementSize + CACHELINE_BYTES - 1 >= Words.TWO64 ==> IdealStride(elementSize) >= Words.TWO64
  {
    IdealStrideIs(elementSize);
    StrideClears(elementSize);
    Lines(PaddedWord(elementSize));
    Lines(HEADER_BYTES + elementSize + CACHELINE_BYTES - 1);
    if HEADER_BYTES + elementSize + CACHELINE_BYTES - 1 < Words.TWO64 {
      PaddedFits(elementSize);
    }
    hide Stride, PaddedWord;
  }

  lemma ProductOfLines(lines: nat, capacity: nat)
    ensures BufferBytes(capacity, CACHELINE_BYTES * lines) % CACHELINE_BYTES == 0
  {
    var product := CACHELINE_BYTES * lines * capacity;
    assert product == CACHELINE_BYTES * (lines * capacity);
    LinesModWord(lines * capacity);
  }

  lemma LinesModWord(n: nat)
    ensures ((CACHELINE_BYTES * n) % Words.TWO64) % CACHELINE_BYTES == 0
  {
  }

  lemma QuotientBelow(size: nat, stride: nat, capacity: nat)
    requires stride >= 1 && size < stride * capacity
    ensures size / stride < capacity && size == size / stride * stride + size % stride
  {
    if size / stride >= capacity {
      Words.Scale(capacity, size / stride, stride);
    }
  }

  lemma LinesTimes(p: nat, lines: nat)
    ensures p * (CACHELINE_BYTES * lines) == CACHELINE_BYTES * (p * lines)
  {
  }

  lemma RestIsLines(size: nat, p: nat, lines: nat, rest: nat)
    requires size % CACHELINE_BYTES == 0 && size == p * (CACHELINE_BYTES * lines) + rest
    ensures rest % CACHELINE_BYTES == 0
  {
    LinesTimes(p, lines);
    Remainder(size, p * lines, rest);
  }

  lemma LineBelow(rest: nat, stride: nat)
    requires rest < stride && rest % CACHELINE_BYTES == 0 && stride % CACHELINE_BYTES == 0
    ensures rest + CACHELINE_BYTES <= stride
  {
  }

  /** A block whose size has wrapped is too short for the slot at its end. */
  lemma WrappedIsShort(elementSize: nat, capacity: nat, k: nat, stride: nat) returns (p: nat)
    requires capacity == Words.Pow2(k) && stride % CACHELINE_BYTES == 0
    requires HEADER_BYTES + elementSize <= stride < HEADER_BYTES + elementSize + CACHELINE_BYTES
    requires stride * capacity >= Words.TWO64
    ensures SlotOffset(p, capacity, stride) + HEADER_BYTES + elementSize > BufferBytes(capacity, stride)
  {
    var size := BufferBytes(capacity, stride);
    var lines := stride / CACHELINE_BYTES;
    assert stride == CACHELINE_BYTES * lines;
    ProductOfLines(lines, capacity);
    p := size / stride;
    QuotientBelow(size, stride, capacity);
    RestIsLines(size, p, lines, size % stride);
    LineBelow(size % stride, stride);
    MaskIsSlot(p, capacity, k);
    Words.WordFits(p * stride);
    assert SlotOffset(p, capacity, stride) == p * stride;
    hide SlotOffset, BufferBytes, Words.Pow2;
  }

  lemma Remainder(size: nat, n: nat, rest: nat)
    requires size % CACHELINE_BYTES == 0 && size == CACHELINE_BYTES * n + rest
    ensures rest % CACHELINE_BYTES == 0
  {
  }

  /** If the slot size itself wraps, even the first slot is too large for any block. */
  lemma HugeElementIsShort(elementSize: nat, capacity: nat)
    requires elementSize < Words.TWO64 && capacity >= 1
    requires HEADER_BYTES + elementSize + CACHELINE_BYTES - 1 >= Words.TWO64
    ensures !Sized(elementSize, capacity)
    ensures SlotOffset(0, capacity, Stride(elementSize)) + HEADER_BYTES + elementSize
            > BufferBytes(capacity, Stride(elementSize))
  {
    StrideIs(elementSize);
    Words.Scale(1, capacity, IdealStride(elementSize));
    var lines := Stride(elementSize) / CACHELINE_BYTES;
    assert Stride(elementSize) == CACHELINE_BYTES * lines;
    ProductOfLines(lines, capacity);
    hide Stride, IdealStride, Words.BitAnd;
    LineBelow(BufferBytes(capacity, Stride(elementSize)), Words.TWO64);
    hide BufferBytes, SlotOffset;
  }

  /** The slots fit in the block exactly when stride times capacity, computed without wrapping, is below 2^64. */
  lemma SlotsFitExactly(elementSize: nat, capacity: nat, k: nat)
    requires elementSize < Words.TWO64 && capacity == Words.Pow2(k)
    ensures SlotsFit(elementSize, capacity, Stride(elementSize)) <==> Sized(elementSize, capacity)
  {
    StrideIs(elementSize);
    hide Stride, IdealStride, SlotOffset, BufferBytes, Words.Pow2;
    var stride := Stride(elementSize);
    if HEADER_BYTES + elementSize + CACHELINE_BYTES - 1 >= Words.TWO64 {
      HugeElementIsShort(elementSize, capacity);
    } else if stride * capacity >= Words.TWO64 {
      var p := WrappedIsShort(elementSize, capacity, k, stride);
    } else {
      forall p: nat ensures SlotOffset(p, capacity, stride) + HEADER_BYTES + elementSize <= BufferBytes(capacity, stride) {
        SlotsDisjoint(p, p, capacity, k, stride, elementSize);
      }
    }
  }

  /** Eight-byte items in 2^58 slots: the product wraps, and the block asked for has no bytes at all. */
  lemma SizeWrapsToZero()
    ensures var capacity := Words.Pow2(58);
            && Stride(8) == 64 && BufferBytes(capacity, Stride(8)) == 0
            && !Sized(8, capacity) && !SlotsFit(8, capacity, Stride(8))
  {
    StrideIs(8);
    Words.Pow2Add(6, 58);
    Words.Pow2Is64();
    assert Words.Pow2(6) == 64;
    SlotsFitExactly(8, Words.Pow2(58), 58);
    hide Words.Pow2, SlotsFit, Stride;
  }

  /** Sizes that fit leave every sum and product of create below 2^64. */
  lemma SizedStride(elementSize: nat, capacity: nat)
    requires capacity >= 1 && Sized(elementSize, capacity)
    ensures Stride(elementSize) == IdealStride(elementSize)
    ensures Stride(elementSize) * capacity < Words.TWO64
  {
    StrideIs(elementSize);
    hide Stride, IdealStride;
    Words.Scale(1, capacity, IdealStride(elementSize));
  }

  /** What create asks for holds every slot, if the sizes fit. */
  lemma LayoutFits(elementSize: nat, capacity: nat, k: nat)
    requires elementSize < Words.TWO64 && capacity == Words.Pow2(k) && Sized(elementSize, capacity)
    ensures Stride(elementSize) == IdealStride(elementSize) >= HEADER_BYTES + elementSize
    ensures BufferBytes(capacity, Stride(elementSize)) == Stride(elementSize) * capacity < Words.TWO64
    ensures SlotsFit(elementSize, capacity, Stride(elementSize))
  {
    hide Stride, IdealStride, Words.Pow2, SlotsFit, Sized;
    StrideIs(elementSize);
    SizedStride(elementSize, capacity);
    SlotsFitExactly(elementSize, capacity, k);
    Words.WordFits(Stride(elementSize) * capacity);
  }
}
