/**
 * The bump allocator `Arena` of base.h: a fixed-size buffer handed out in
 * increasing, aligned offsets, with one saved checkpoint for scoped rollback.
 * The buffer is represented by its size; an allocation returns the offset of
 * the block inside the buffer in place of a pointer.
 */
module Arenas {
  import opened Wrappers
  import opened Bits

  /** Number of distinct usize values on the 64-bit target (2^64). */
  const U64_LIMIT: nat := 0x1_0000_0000_0000_0000

  /** BASE_ARENA_DEFAULT_ALIGNMENT: 2 * sizeof(usize) on a 64-bit target. */
  const DEFAULT_ALIGNMENT: nat := 16

  /**
   * ALIGN_UP(value, alignment) = (value + alignment - 1) & ~(alignment - 1),
   * evaluated in usize: the sum wraps modulo 2^64 and ~ complements 64 bits.
   */
  function AlignUp(value: nat, alignment: nat): (r: nat)
    requires IsPowerOfTwo(alignment) && value < U64_LIMIT && alignment < U64_LIMIT
    ensures r % alignment == 0
    ensures value + alignment - 1 < U64_LIMIT ==> value <= r < value + alignment
  {
    AlignUpFacts(value, alignment);
    And((value + alignment - 1) % U64_LIMIT, U64_LIMIT - alignment)
  }

  /** The mask of ALIGN_UP rounds the (wrapped) sum down to a multiple of the alignment. */
  lemma AlignUpFacts(value: nat, alignment: nat)
    requires IsPowerOfTwo(alignment) && value < U64_LIMIT && alignment < U64_LIMIT
    ensures var r := And((value + alignment - 1) % U64_LIMIT, U64_LIMIT - alignment);
      && r % alignment == 0
      && (value + alignment - 1 < U64_LIMIT ==> value <= r < value + alignment)
  {
    var y := (value + alignment - 1) % U64_LIMIT;
    MaskRoundsDown(y, alignment);
    RoundDownBounds(y, alignment);
    var r := y - y % alignment;
    assert And(y, U64_LIMIT - alignment) == r && r % alignment == 0;
    if value + alignment - 1 < U64_LIMIT {
      assert y == value + alignment - 1;
      assert value <= r < value + alignment;
    }
  }

  lemma MaskRoundsDown(y: nat, alignment: nat)
    requires IsPowerOfTwo(alignment) && y < U64_LIMIT && alignment < U64_LIMIT
    ensures And(y, U64_LIMIT - alignment) == y - y % alignment
  {
    var k := Log2(alignment);
    Pow2Of64();
    if k > 64 {
      PowMonotone(64, k);
    }
    AndClearsLowBits(y, 64, k);
  }

  lemma RoundDownBounds(y: nat, a: nat)
    requires a > 0
    ensures (y - y % a) % a == 0 && y - (a - 1) <= y - y % a <= y
  {
    ModOfDecomposition(y - y % a, a, y / a, 0);
  }

  lemma {:induction false} Pow2Add(i: nat, j: nat)
    ensures Pow2(i + j) == Pow2(i) * Pow2(j)
    decreases i
  {
    if i > 0 {
      Pow2Add(i - 1, j);
    }
  }

  lemma Pow2Of64()
    ensures Pow2(64) == U64_LIMIT
  {
    assert Pow2(8) == 256;
    Pow2Add(8, 8);
    assert Pow2(16) == 256 * 256 == 0x1_0000;
    Pow2Add(16, 16);
    assert Pow2(32) == 0x1_0000 * 0x1_0000 == 0x1_0000_0000;
    Pow2Add(32, 32);
    assert Pow2(64) == 0x1_0000_0000 * 0x1_0000_0000 == 0x1_0000_0000_0000_0000;
  }

  /**
   * What an aligned allocation should do, computed without wrap-around:
   * the block starts at the current offset rounded up to the alignment and
   * must end inside the buffer; Some((start, end)) or None when it does not fit.
   */
  function AllocOutcome(current: nat, total: nat, itemSize: nat, alignment: nat): (r: Option<(nat, nat)>)
    requires IsPowerOfTwo(alignment) && current < U64_LIMIT && alignment < U64_LIMIT
    ensures r.Some? ==> r.value.0 % alignment == 0 && current <= r.value.0 < current + alignment
    ensures r.Some? ==> r.value.1 == r.value.0 + itemSize <= total
    ensures r.None? <==> current + alignment - 1 >= U64_LIMIT || AlignUp(current, alignment) + itemSize > total
  {
    if current + alignment - 1 >= U64_LIMIT then None
    else
      var start := AlignUp(current, alignment);
      if start + itemSize > total then None else Some((start, start + itemSize))
  }

  /**
   * arena_alloc_aligned exactly as written: both ALIGN_UP and the end offset
   * are computed in usize, so a huge item_size wraps the end offset around.
   */
  function AllocAsWritten(current: nat, total: nat, itemSize: nat, alignment: nat): (r: Option<(nat, nat)>)
    requires IsPowerOfTwo(alignment) && current < U64_LIMIT && alignment < U64_LIMIT
    requires itemSize < U64_LIMIT && total < U64_LIMIT
    ensures r.Some? ==> r.value.0 % alignment == 0 && r.value.1 <= total
  {
    var start := AlignUp(current, alignment);
    var end := (start + itemSize) % U64_LIMIT;
    if end > total then None else Some((start, end))
  }

  /**
   * A request of 2^64 - 8 bytes in a 64-byte arena whose offset is 16 is
   * accepted as written: the block starts at 16 and the offset moves BACK to 8.
   * The wrap-free outcome refuses it.
   */
  lemma AllocAsWrittenWrapsAround()
    ensures AllocAsWritten(16, 64, U64_LIMIT - 8, 16) == Some((16, 8))
    ensures AllocOutcome(16, 64, U64_LIMIT - 8, 16) == None
  {
    DefaultAlignmentIsPowerOfTwo();
    assert AlignUp(16, 16) == 16;
  }

  class Arena {
    /** false once arena_free_all has released the buffer (buffer == NULL). */
    var hasBuffer: bool
    var totalSize: nat
    var prevOffset: nat
    var currentOffset: nat

    ghost predicate Valid()
      reads this
    {
      && prevOffset <= currentOffset <= totalSize < U64_LIMIT
      && (!hasBuffer ==> totalSize == 0)
    }

    /** arena_init: a failed malloc is a fatal abort in the source and is not modelled. */
    constructor Init(totalSizeBytes: nat)
      requires totalSizeBytes < U64_LIMIT
      ensures Valid() && hasBuffer
      ensures totalSize == totalSizeBytes && prevOffset == 0 && currentOffset == 0
    {
      hasBuffer := true;
      totalSize := totalSizeBytes;
      currentOffset := 0;
      prevOffset := 0;
    }

    /** arena_free_all: releases the buffer and zeroes every field. */
    method FreeAll()
      modifies this
      ensures Valid() && !hasBuffer
      ensures totalSize == 0 && prevOffset == 0 && currentOffset == 0
    {
      hasBuffer := false;
      totalSize := 0;
      prevOffset := 0;
      currentOffset := 0;
    }

    /** arena_reset: both offsets back to the start of the buffer. */
    method Reset()
      requires Valid()
      modifies this
      ensures Valid() && prevOffset == 0 && currentOffset == 0
      ensures totalSize == old(totalSize) && hasBuffer == old(hasBuffer)
    {
      prevOffset := 0;
      currentOffset := 0;
    }

    /** arena_mark_temp: the single checkpoint; a later mark overwrites an earlier one. */
    method MarkTemp()
      requires Valid()
      modifies this
      ensures Valid() && prevOffset == currentOffset
      ensures currentOffset == old(currentOffset) && totalSize == old(totalSize) && hasBuffer == old(hasBuffer)
    {
      prevOffset := currentOffset;
    }

    /** arena_release_temp: rewinds to the checkpoint, making later space reusable. */
    method ReleaseTemp()
      requires Valid()
      modifies this
      ensures Valid() && currentOffset == old(prevOffset)
      ensures prevOffset == old(prevOffset) && totalSize == old(totalSize) && hasBuffer == old(hasBuffer)
    {
      currentOffset := prevOffset;
    }

    /**
     * arena_alloc_aligned with the end offset computed without wrap-around
     * (see AllocAsWritten for the code as written). The result is the
     * offset of the block, or None when it does not fit; a failed request
     * changes nothing. A released buffer yields None (a NULL pointer).
     */
    method AllocAligned(itemSize: nat, alignment: nat) returns (r: Option<nat>)
      requires Valid()
      requires alignment > 0 && And(alignment, alignment - 1) == 0 && alignment < U64_LIMIT
      modifies this
      ensures Valid() && IsPowerOfTwo(alignment)
      ensures totalSize == old(totalSize) && prevOffset == old(prevOffset) && hasBuffer == old(hasBuffer)
      ensures AllocOutcome(old(currentOffset), totalSize, itemSize, alignment).None? ==>
                r.None? && currentOffset == old(currentOffset)
      ensures AllocOutcome(old(currentOffset), totalSize, itemSize, alignment).Some? ==>
                var (start, end) := AllocOutcome(old(currentOffset), totalSize, itemSize, alignment).value;
                currentOffset == end && r == (if hasBuffer then Some(start) else None)
    {
      PowerOfTwoTest(alignment);
      if currentOffset + alignment - 1 >= U64_LIMIT {
        return None;
      }
      var alignedCurrentOffset := AlignUp(currentOffset, alignment);
      var newCurrentOffset := alignedCurrentOffset + itemSize;
      if newCurrentOffset > totalSize {
        return None;
      }
      r := if hasBuffer then Some(alignedCurrentOffset) else None;
      currentOffset := newCurrentOffset;
    }

    /** arena_alloc: aligned to BASE_ARENA_DEFAULT_ALIGNMENT. */
    method Alloc(itemSize: nat) returns (r: Option<nat>)
      requires Valid()
      modifies this
      ensures Valid()
      ensures totalSize == old(totalSize) && prevOffset == old(prevOffset) && hasBuffer == old(hasBuffer)
      ensures DefaultOutcome(old(currentOffset), totalSize, itemSize).None? ==>
                r.None? && currentOffset == old(currentOffset)
      ensures DefaultOutcome(old(currentOffset), totalSize, itemSize).Some? ==>
                var (start, end) := DefaultOutcome(old(currentOffset), totalSize, itemSize).value;
                currentOffset == end && r == (if hasBuffer then Some(start) else None)
    {
      DefaultAlignmentIsPowerOfTwo();
      PowerOfTwoTest(DEFAULT_ALIGNMENT);
      r := AllocAligned(itemSize, DEFAULT_ALIGNMENT);
    }
  }

  lemma DefaultAlignmentIsPowerOfTwo()
    ensures IsPowerOfTwo(DEFAULT_ALIGNMENT)
  {
    assert IsPowerOfTwo(1) && IsPowerOfTwo(2) && IsPowerOfTwo(4) && IsPowerOfTwo(8);
  }

  /** The outcome of arena_alloc, which uses the default alignment. */
  function DefaultOutcome(current: nat, total: nat, itemSize: nat): (r: Option<(nat, nat)>)
    requires current < U64_LIMIT
    ensures r.Some? ==> r.value.0 % DEFAULT_ALIGNMENT == 0 && current <= r.value.0 && r.value.1 == r.value.0 + itemSize <= total
  {
    DefaultAlignmentIsPowerOfTwo();
    AllocOutcome(current, total, itemSize, DEFAULT_ALIGNMENT)
  }

  /**
   * Scoped rollback: after mark, allocations, release, the next allocation
   * of the same request gets exactly the offset the first one after the
   * mark got.
   */
  method MarkAllocRelease(a: Arena, itemSize: nat, alignment: nat) returns (first: Option<nat>, again: Option<nat>)
    requires a.Valid() && IsPowerOfTwo(alignment) && alignment < U64_LIMIT
    modifies a
    ensures a.Valid() && first == again
  {
    PowerOfTwoTest(alignment);
    a.MarkTemp();
    first := a.AllocAligned(itemSize, alignment);
    var _ := a.AllocAligned(itemSize, alignment);
    a.ReleaseTemp();
    again := a.AllocAligned(itemSize, alignment);
  }
}
