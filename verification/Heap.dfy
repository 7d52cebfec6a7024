/** The guest heap (`src/mem.rs`): allocating, moving, growing and freeing blocks of guest memory. */
module GuestHeap {
  import opened Wrappers
  import opened GuestMemory
  import opened ChunkMaps
  import opened GuestAllocator

  /** A Mach port constant that some programs free. */
  const MACH_TASK_SELF := 0x7461736b
  const NEGATIVE_SIZE := 0x8000_0000

  /** Guest memory goes on for one page behind the 32-bit address space (src/mem.rs:301-305). */
  const MEMORY_END := SPACE_END + PAGE_SIZE

  type Bytes = map<nat, byte>

  function ByteAt(bytes: Bytes, a: nat): byte {
    if a in bytes then bytes[a] else 0
  }

  function Zeros(n: nat): seq<byte> {
    seq<byte>(n, _ => 0)
  }

  function BytesAt(bytes: Bytes, a: nat, n: nat): seq<byte> {
    seq<byte>(n, i requires 0 <= i < n => ByteAt(bytes, a + i))
  }

  /** The `n` bytes at `a` are zero. */
  ghost predicate ZeroRange(bytes: Bytes, a: nat, n: nat) {
    forall b: nat :: a <= b < a + n ==> ByteAt(bytes, b) == 0
  }

  ghost predicate SameRange(bytes: Bytes, bytes': Bytes, a: nat, n: nat) {
    forall b: nat :: a <= b < a + n ==> ByteAt(bytes', b) == ByteAt(bytes, b)
  }

  /** Nothing outside the `n` bytes at `a` differs. */
  ghost predicate SameOutside(bytes: Bytes, bytes': Bytes, a: nat, n: nat) {
    forall b: nat :: !(a <= b < a + n) ==> ByteAt(bytes', b) == ByteAt(bytes, b)
  }

  /** Every byte of an unused chunk is zero. */
  ghost predicate UnusedIsZero(s: Chunks, bytes: Bytes) {
    forall a: nat :: Covered(s.unused, a) ==> ByteAt(bytes, a) == 0
  }

  /** The `n` bytes at `src` have become the `n` bytes at `dest`. */
  ghost predicate CopiedRange(bytes: Bytes, src: nat, bytes': Bytes, dest: nat, n: nat) {
    forall b: nat :: dest <= b < dest + n ==> ByteAt(bytes', b) == ByteAt(bytes, src + (b - dest))
  }

  /** Bytes that were never written are zero, and written ones are what was written last. */
  lemma BytesReadBack(bytes: Bytes, a: nat, v: byte, b: nat)
    ensures ByteAt(map[], b) == 0
    ensures ByteAt(bytes[a := v], b) == if b == a then v else ByteAt(bytes, b)
  {
  }

  lemma Zeroed(bytes: Bytes, a: nat, n: nat)
    ensures var bytes' := StoreBytes(bytes, a, Zeros(n)); ZeroRange(bytes', a, n) && SameOutside(bytes, bytes', a, n)
  {
    StoredBytes(bytes, a, Zeros(n));
  }

  class Heap {
    const nullSegmentSize: nat
    const zeroMemoryOnFree: bool
    const allocator: Allocator
    var bytes: Bytes

    constructor (nullSegmentSize: nat, zeroMemoryOnFree: bool)
      requires PAGE_SIZE <= nullSegmentSize < STACK_LOW_END && nullSegmentSize % PAGE_SIZE == 0
      ensures Valid() && allocator.State() == Initial(nullSegmentSize) && bytes == map[] && fresh(allocator)
      ensures this.nullSegmentSize == nullSegmentSize && this.zeroMemoryOnFree == zeroMemoryOnFree
    {
      this.nullSegmentSize := nullSegmentSize;
      this.zeroMemoryOnFree := zeroMemoryOnFree;
      this.bytes := map[];
      this.allocator := new Allocator(nullSegmentSize);
    }

    ghost predicate WellFormed()
      reads this, allocator
    {
      && allocator.State().Valid()
      && nullSegmentSize > 0 && 0 in allocator.used && allocator.used[0] == nullSegmentSize
    }

    /** With `zeroMemoryOnFree`, memory that no block occupies is always zero. */
    ghost predicate Valid()
      reads this, allocator
    {
      WellFormed() && (zeroMemoryOnFree ==> UnusedIsZero(allocator.State(), bytes))
    }

    /** `bytes_at_mut(...).fill(0)`: the null segment and ranges past the end of memory are not written. */
    method FillZero(a: nat, n: nat)
      modifies this
      ensures if a < nullSegmentSize || a + n > MEMORY_END then bytes == old(bytes)
              else ZeroRange(bytes, a, n) && SameOutside(old(bytes), bytes, a, n)
    {
      if a >= nullSegmentSize && a + n <= MEMORY_END {
        Zeroed(bytes, a, n);
        bytes := StoreBytes(bytes, a, Zeros(n));
      }
    }

    /** `corrupt_byte`. A byte of the null segment is not written. */
    method CorruptByte(a: nat, value: byte)
      modifies this`bytes
      ensures bytes == if nullSegmentSize <= a < SPACE_END then old(bytes)[a := value] else old(bytes)
    {
      if nullSegmentSize <= a < SPACE_END {
        bytes := bytes[a := value];
      }
    }

    /** `memmove`: a negative size, a null source and ranges past the end of memory are skipped. */
    method Memmove(dest: nat, src: nat, n: nat)
      modifies this
      ensures if n >= NEGATIVE_SIZE || (src == 0 && n > 0) || src + n > MEMORY_END || dest + n > MEMORY_END
              then bytes == old(bytes)
              else CopiedRange(old(bytes), src, bytes, dest, n) && SameOutside(old(bytes), bytes, dest, n)
    {
      if n >= NEGATIVE_SIZE {
        return;
      }
      if src == 0 && n > 0 {
        return;
      }
      if src + n > MEMORY_END || dest + n > MEMORY_END {
        return;
      }
      var moved := BytesAt(bytes, src, n);
      StoredBytes(bytes, dest, moved);
      bytes := StoreBytes(bytes, dest, moved);
    }

    /**
     `alloc`: a block that was in no chunk in use, its `size` bytes zero in both configurations; all other
     memory keeps its contents. It yields 0 exactly when no unused chunk is large enough.
     */
    method Alloc(size: nat) returns (p: nat)
      requires Valid() && size <= MAX_SIZE
      modifies this, allocator
      ensures Valid()
      ensures p == 0 <==> NoFit(old(allocator.unused), size)
      ensures p == 0 ==> allocator.State() == old(allocator.State()) && bytes == old(bytes)
      ensures p != 0 ==>
                && AlignedSize(size).Some? && BestFit(old(allocator.unused), p, AlignedSize(size).value)
                && AlignedSize(size).value > 0
                && allocator.State() == Allocated(old(allocator.State()), p, AlignedSize(size).value)
      ensures p != 0 ==> BlockAdded(old(allocator.State()), allocator.State(), p, size)
      ensures p != 0 ==> ZeroRange(bytes, p, size) && SameOutside(old(bytes), bytes, p, size)
      ensures p != 0 && zeroMemoryOnFree ==> ZeroRange(bytes, p, allocator.used[p]) && bytes == old(bytes)
    {
      p := allocator.Alloc(size);
      if p != 0 {
        AllocAdds(old(allocator.State()), p, size);
        if zeroMemoryOnFree {
          AllocatedIsZero(old(allocator.State()), p, size, bytes);
        }
      }
      if !zeroMemoryOnFree {
        assert Apart(allocator.State().All(), 0, p);
        FillZero(p, size);
      }
    }

    /** `free`: the block is given back, and zeroed if so configured; anything that is no block is ignored. */
    method Free(p: nat)
      requires WellFormed()
      modifies this, allocator
      ensures WellFormed() && (old(Valid()) ==> Valid())
      ensures p == 0 || p == MACH_TASK_SELF || p !in old(allocator.used) ==>
                allocator.State() == old(allocator.State()) && bytes == old(bytes)
      ensures p != 0 && p != MACH_TASK_SELF && p in old(allocator.used) ==>
                BlockFreed(old(allocator.State()), allocator.State(), p)
                && SameOutside(old(bytes), bytes, p, old(allocator.used)[p])
                && if zeroMemoryOnFree then ZeroRange(bytes, p, old(allocator.used)[p]) else bytes == old(bytes)
    {
      if p == 0 {
        return;
      }
      if p == MACH_TASK_SELF {
        return;
      }
      if p !in allocator.used {
        return;
      }
      assert GoodAt(allocator.State().All(), p) && Apart(allocator.State().All(), 0, p);
      var size := allocator.Free(p);
      FreedBlock(old(allocator.State()), allocator.State(), p);
      if zeroMemoryOnFree {
        FillZero(p, size);
      }
    }

    /**
     `realloc`. A block in use keeps its contents (the first bytes, if it grows) whether it stays, grows in
     place or moves, and no other block changes. If no memory is left, 0 is returned, but not before the
     block has been copied to address 0 and given back. For an address that is no block a new block is
     made, and given back at once exactly if it lies at that very address: never if no best fit starts
     there, always if only the one there does.
     */
    method Realloc(p: nat, size: nat) returns (r: nat)
      requires Valid() && size <= MAX_SIZE
      modifies this, allocator
      ensures WellFormed()
      ensures p == 0 ==>
                IsNewBlock(old(allocator.State()), old(bytes), allocator.State(), bytes, r, size, zeroMemoryOnFree)
      ensures p != 0 && size <= SizeOf(old(allocator.State()), p) ==>
                r == p && allocator.State() == old(allocator.State()) && bytes == old(bytes)
      ensures p in old(allocator.used) && p != 0 && size > old(allocator.used)[p] && r != 0 ==>
                BlockResized(old(allocator.State()), old(bytes), allocator.State(), bytes, p, r, size)
                && TailOf(old(allocator.used)[p], old(bytes), allocator.State(), bytes, p, r, size, zeroMemoryOnFree)
      ensures p in old(allocator.used) && p != 0 && size > old(allocator.used)[p] && r == 0 ==>
                MoveFailed(old(allocator.State()), old(bytes), allocator.State(), bytes, p, zeroMemoryOnFree)
      ensures p in old(allocator.used) && p != 0 && size > old(allocator.used)[p]
              && Grown(old(allocator.State()), p, size).Some? ==>
                r == p && allocator.State() == Grown(old(allocator.State()), p, size).value
      ensures r != 0 || p == 0 ==> Valid()
      ensures p != 0 && p !in old(allocator.used) && size > 0 ==>
                NewBlockOnly(old(allocator.State()), allocator.State(), p, r, size)
                && OthersKept(old(allocator.State()), old(bytes), allocator.State(), bytes, p)
      ensures p != 0 && size > SizeOf(old(allocator.State()), p) && AlignedSize(size).None? ==> r == 0
    {
      if p == 0 {
        r := Alloc(size);
        return;
      }
      var oldSize := allocator.FindAllocatedSize(p);
      if oldSize >= size {
        return p;
      }
      var grown := allocator.GrowInPlace(p, oldSize, size);
      if grown.Some? {
        GrownFits(old(allocator.State()), p, size);
        GrownInPlace(old(allocator.State()), p, size, bytes, zeroMemoryOnFree);
        if zeroMemoryOnFree {
          FillZero(p + oldSize, grown.value - oldSize);
        }
        return p;
      }
      r := ReallocByMoving(p, oldSize, size);
    }

    /** The slow path of `realloc` (src/mem.rs:972-975): a new block, a copy, and the old block given back. */
    method ReallocByMoving(p: nat, oldSize: nat, size: nat) returns (r: nat)
      requires Valid() && p != 0 && oldSize == SizeOf(allocator.State(), p) < size <= MAX_SIZE
      modifies this, allocator
      ensures WellFormed() && (r != 0 ==> Valid())
      ensures p in old(allocator.used) && r != 0 ==>
                r != p && BlockResized(old(allocator.State()), old(bytes), allocator.State(), bytes, p, r, size)
                && TailOf(oldSize, old(bytes), allocator.State(), bytes, p, r, size, zeroMemoryOnFree)
      ensures p in old(allocator.used) && r == 0 ==>
                MoveFailed(old(allocator.State()), old(bytes), allocator.State(), bytes, p, zeroMemoryOnFree)
      ensures p !in old(allocator.used) ==>
                NewBlockOnly(old(allocator.State()), allocator.State(), p, r, size)
                && OthersKept(old(allocator.State()), old(bytes), allocator.State(), bytes, p)
      ensures AlignedSize(size).None? ==> r == 0
    {
      r := Alloc(size);
      ghost var s1, bytes1 := allocator.State(), bytes;
      if r != 0 {
        assert GoodAt(s1.All(), r);
      }
      if p in old(allocator.used) {
        assert GoodAt(s1.All(), p);
        if r != 0 {
          RoomForBoth(s1, p, r);
        }
      }
      CopyAndFree(p, r, oldSize);
      if p in old(allocator.used) && r != 0 {
        MovedContents(old(allocator.State()), old(bytes), s1, bytes1, allocator.State(), bytes, p, r, size);
      }
      if p !in old(allocator.used) && r != 0 {
        NewBlockKeepsOthers(old(allocator.State()), old(bytes), s1, bytes1, bytes, r, size);
      }
    }

    /** The copy and the release. Copying into a block in use leaves unused memory zero. */
    method CopyAndFree(p: nat, r: nat, n: nat)
      requires WellFormed() && p != 0 && (p in allocator.used ==> n <= allocator.used[p] && p + n <= SPACE_END)
      modifies this, allocator
      ensures WellFormed()
      ensures old(Valid()) && r in old(allocator.used) && n <= old(allocator.used)[r] ==> Valid()
      ensures allocator.used == if p == MACH_TASK_SELF then old(allocator.used) else old(allocator.used) - {p}
      ensures p in old(allocator.used) && p != MACH_TASK_SELF ==> (
                && BlockFreed(old(allocator.State()), allocator.State(), p)
                && (zeroMemoryOnFree ==> ZeroRange(bytes, p, old(allocator.used)[p])))
      ensures p !in old(allocator.used) && n == 0 ==> forall a: nat :: ByteAt(bytes, a) == ByteAt(old(bytes), a)
      ensures p in old(allocator.used) && r + n <= SPACE_END ==>
                CopiedBlock(old(allocator.State()), old(bytes), bytes, p, r, if n < NEGATIVE_SIZE then n else 0)
    {
      Memmove(r, p, n);
      if zeroMemoryOnFree && UnusedIsZero(old(allocator.State()), old(bytes)) && r in allocator.used
          && n <= allocator.used[r] {
        assert SameOutside(old(bytes), bytes, r, n);
        WritingInsideBlocks(allocator.State(), old(bytes), bytes, r, n);
      }
      Free(p);
    }
  }

  function SizeOf(s: Chunks, p: nat): nat {
    if p in s.used then s.used[p] else 0
  }

  /** No unused chunk is large enough, or the size cannot even be rounded up. */
  ghost predicate NoFit(unused: ChunkMap, size: nat) {
    AlignedSize(size).None? || forall c :: c in unused ==> unused[c] < AlignedSize(size).value
  }

  /** What allocation does to chunks and bytes: nothing if it yields 0, and otherwise no more than to make the block. */
  ghost predicate IsNewBlock(s: Chunks, bytes: Bytes, s': Chunks, bytes': Bytes, r: nat, size: nat, zeroOnFree: bool) {
    if r == 0 then NoFit(s.unused, size) && s' == s && bytes' == bytes else
      && AlignedSize(size).Some? && AlignedSize(size).value > 0
      && BestFit(s.unused, r, AlignedSize(size).value) && s' == Allocated(s, r, AlignedSize(size).value)
      && ZeroRange(bytes', r, size) && SameOutside(bytes, bytes', r, size) && (zeroOnFree ==> bytes' == bytes)
  }

  /**
   What a `realloc` of an address without a block does to the chunks: the new block stays in use unless
   it lies at that address, which takes a best fit there, and must be so if there is no other.
   */
  ghost predicate NewBlockOnly(s: Chunks, s': Chunks, p: nat, r: nat, size: nat) {
    if r == 0 then s'.used == s.used && NoFit(s.unused, size) else
      && AlignedSize(size).Some? && BestFit(s.unused, r, AlignedSize(size).value)
      && (r in s'.used <==> r != p || p == MACH_TASK_SELF)
      && (!BestFit(s.unused, p, AlignedSize(size).value) ==> BlockAdded(s, s', r, size))
      && (OnlyBestFit(s.unused, p, AlignedSize(size).value) && p != MACH_TASK_SELF ==> r == p && s'.used == s.used)
  }

  ghost predicate BlockKept(s: Chunks, bytes: Bytes, s': Chunks, bytes': Bytes, b: nat)
    requires b in s.used
  {
    b in s'.used && s'.used[b] == s.used[b] && SameRange(bytes, bytes', b, s.used[b])
  }

  /** Every other block is still in use, with the same contents. */
  ghost predicate OthersKept(s: Chunks, bytes: Bytes, s': Chunks, bytes': Bytes, p: nat) {
    forall b :: b in s.used && b != p ==> BlockKept(s, bytes, s', bytes', b)
  }

  /** No byte outside these two blocks differs. */
  ghost predicate SameElsewhere(s: Chunks, bytes: Bytes, s': Chunks, bytes': Bytes, p: nat, r: nat) {
    forall a: nat :: !Holds(s.used, p, a) && !Holds(s'.used, r, a) ==> ByteAt(bytes', a) == ByteAt(bytes, a)
  }

  /** The block at `p` has become the one at `r`, with its old contents in front; it is in use only once. */
  ghost predicate BlockResized(s: Chunks, bytes: Bytes, s': Chunks, bytes': Bytes, p: nat, r: nat, size: nat) {
    && p in s.used && r in s'.used && s'.used[r] >= size
    && CopiedRange(bytes, p, bytes', r, s.used[p])
    && OthersKept(s, bytes, s', bytes', p) && SameElsewhere(s, bytes, s', bytes', p, r)
    && (r != p && p != MACH_TASK_SELF ==> p !in s'.used)
  }

  /**
   What follows the old contents: zeros, except that without `zeroOnFree` a block grown in place finds what
   was left in the memory it grew into.
   */
  ghost predicate TailOf(oldSize: nat, bytes: Bytes, s': Chunks, bytes': Bytes, p: nat, r: nat, size: nat,
                         zeroOnFree: bool)
  {
    && r in s'.used && s'.used[r] >= size >= oldSize
    && (zeroOnFree ==> ZeroRange(bytes', r + oldSize, s'.used[r] - oldSize))
    && (!zeroOnFree && r != p ==> ZeroRange(bytes', r + oldSize, size - oldSize))
    && (!zeroOnFree && r == p ==> SameRange(bytes, bytes', r + oldSize, s'.used[r] - oldSize))
  }

  /** Between the two states, the `n` bytes of block `p` are copied to block `r`; what `p` itself holds is open. */
  ghost predicate CopiedBlock(s: Chunks, bytes: Bytes, bytes': Bytes, p: nat, r: nat, n: nat) {
    forall a: nat :: !Holds(s.used, p, a) ==>
        ByteAt(bytes', a) == ByteAt(bytes, if r <= a < r + n then p + (a - r) else a)
  }

  /** The block is gone, and memory from address 0 on has been overwritten with what it held. */
  ghost predicate MoveFailed(s: Chunks, bytes: Bytes, s': Chunks, bytes': Bytes, p: nat, zeroOnFree: bool) {
    && p in s.used
    && (p != MACH_TASK_SELF ==> BlockFreed(s, s', p) && (zeroOnFree ==> ZeroRange(bytes', p, s.used[p])))
    && CopiedBlock(s, bytes, bytes', p, 0, if s.used[p] < NEGATIVE_SIZE then s.used[p] else 0)
  }

  /** Writing inside a block in use, as guest code does, leaves unused memory alone. */
  lemma WritingInsideBlocks(s: Chunks, bytes: Bytes, bytes': Bytes, b: nat, n: nat)
    requires s.Valid() && b in s.used && n <= s.used[b] && UnusedIsZero(s, bytes) && SameOutside(bytes, bytes', b, n)
    ensures UnusedIsZero(s, bytes')
  {
    forall a: nat | Covered(s.unused, a) ensures ByteAt(bytes', a) == 0 {
      UsedOrUnused(s, a);
      assert b <= a < b + n ==> Holds(s.used, b, a);
    }
  }

  /** Two blocks in use fit the address space together, so one of them is smaller than half of it. */
  lemma RoomForBoth(s: Chunks, p: nat, r: nat)
    requires s.Valid() && p in s.used && r in s.used && p != r
    ensures s.used[p] + s.used[r] <= SPACE_END
  {
    assert GoodAt(s.All(), p) && GoodAt(s.All(), r) && Apart(s.All(), p, r) && Apart(s.All(), r, p);
  }

  lemma OtherBlockSame(s: Chunks, bytes: Bytes, bytes': Bytes, p: nat, r: nat, n: nat, b: nat)
    requires s.Valid() && p in s.used && r in s.used && n <= s.used[r] && b in s.used && b != p && b != r
    requires CopiedBlock(s, bytes, bytes', p, r, n)
    ensures SameRange(bytes, bytes', b, s.used[b])
  {
    assert Apart(s.All(), p, b) && Apart(s.All(), b, p) && Apart(s.All(), r, b) && Apart(s.All(), b, r);
  }

  lemma NewBlockIsApart(s: Chunks, bytes: Bytes, bytes1: Bytes, r: nat, b: nat)
    requires s.Valid() && r in s.used && b in s.used && b != r && SameOutside(bytes, bytes1, r, s.used[r])
    ensures SameRange(bytes, bytes1, b, s.used[b])
  {
    assert Apart(s.All(), r, b) && Apart(s.All(), b, r);
  }

  lemma NewBlockKeepsOthers(s: Chunks, bytes: Bytes, s1: Chunks, bytes1: Bytes, bytes2: Bytes, r: nat, size: nat)
    requires s1.Valid() && BlockAdded(s, s1, r, size) && SameOutside(bytes, bytes1, r, s1.used[r])
    requires forall a: nat :: !Holds(s1.used, r, a) ==> ByteAt(bytes2, a) == ByteAt(bytes1, a)
    ensures forall b :: b in s.used ==> SameRange(bytes, bytes2, b, s.used[b])
  {
    forall b | b in s.used ensures SameRange(bytes, bytes2, b, s.used[b]) {
      NewBlockIsApart(s1, bytes, bytes1, r, b);
      assert Apart(s1.All(), r, b) && Apart(s1.All(), b, r);
    }
  }

  lemma CopyHoldsContents(s1: Chunks, bytes1: Bytes, bytes2: Bytes, p: nat, r: nat, n: nat)
    requires s1.Valid() && p in s1.used && r in s1.used && p != r && n == s1.used[p] <= s1.used[r]
    requires CopiedBlock(s1, bytes1, bytes2, p, r, n)
    ensures CopiedRange(bytes1, p, bytes2, r, n) && SameRange(bytes1, bytes2, r + n, s1.used[r] - n)
  {
    assert Apart(s1.All(), p, r) && Apart(s1.All(), r, p);
  }

  lemma MovedContents(s: Chunks, bytes: Bytes, s1: Chunks, bytes1: Bytes, s2: Chunks, bytes2: Bytes, p: nat, r: nat,
                      size: nat)
    requires s1.Valid() && p in s.used && s.used[p] < size && BlockAdded(s, s1, r, size)
    requires SameOutside(bytes, bytes1, r, s1.used[r])
    requires s2.used == if p == MACH_TASK_SELF then s1.used else s1.used - {p}
    requires CopiedBlock(s1, bytes1, bytes2, p, r, s.used[p])
    ensures BlockResized(s, bytes, s2, bytes2, p, r, size)
    ensures SameRange(bytes1, bytes2, r + s.used[p], s1.used[r] - s.used[p])
  {
    CopyHoldsContents(s1, bytes1, bytes2, p, r, s.used[p]);
    NewBlockIsApart(s1, bytes, bytes1, r, p);
    assert CopiedRange(bytes, p, bytes2, r, s.used[p]);
    forall b | b in s.used && b != p ensures SameRange(bytes, bytes2, b, s.used[b]) {
      NewBlockIsApart(s1, bytes, bytes1, r, b);
      OtherBlockSame(s1, bytes1, bytes2, p, r, s.used[p], b);
    }
  }

  /**
   After a failed move, unused memory is still zero exactly when the block held zeros wherever it was copied
   over unused memory.
   */
  lemma FailedMoveAndZeroing(s: Chunks, bytes: Bytes, s': Chunks, bytes': Bytes, p: nat)
    requires s.Valid() && UnusedIsZero(s, bytes) && MoveFailed(s, bytes, s', bytes', p, true)
    requires p != MACH_TASK_SELF && s.used[p] < NEGATIVE_SIZE
    ensures UnusedIsZero(s', bytes') <==>
            forall a: nat :: a < s.used[p] && Covered(s.unused, a) ==> ByteAt(bytes, p + a) == 0
  {
    forall a: nat | Covered(s.unused, a) ensures Covered(s'.unused, a) && !Holds(s.used, p, a) {
      UsedOrUnused(s, a);
    }
    if UnusedIsZero(s', bytes') {
      forall a: nat | a < s.used[p] && Covered(s.unused, a) ensures ByteAt(bytes, p + a) == 0 {
        assert Covered(s'.unused, a);
      }
    }
    if forall a: nat :: a < s.used[p] && Covered(s.unused, a) ==> ByteAt(bytes, p + a) == 0 {
      forall a: nat | Covered(s'.unused, a) ensures ByteAt(bytes', a) == 0 {
        if p <= a < p + s.used[p] {
          assert ByteAt(bytes', a) == 0;
        } else {
          assert !Holds(s.used, p, a) && Covered(s.unused, a) && ByteAt(bytes, a) == 0;
        }
      }
    }
  }

  /** In the range that block `p` is copied to, `b` holds what `p` holds there. */
  ghost predicate AlreadyHolds(s: Chunks, bytes: Bytes, p: nat, b: nat)
    requires p in s.used
  {
    forall a: nat :: Holds(s.used, b, a) && a < s.used[p] ==> ByteAt(bytes, a) == ByteAt(bytes, p + a)
  }

  /**
   A failed move changes no other block exactly when each of them already held, in the range the block
   is copied to, what the block holds there. (The null segment, which nobody reads, is none of them.)
   */
  lemma FailedMoveAndOtherBlocks(s: Chunks, bytes: Bytes, s': Chunks, bytes': Bytes, p: nat, zeroOnFree: bool)
    requires s.Valid() && MoveFailed(s, bytes, s', bytes', p, zeroOnFree)
    requires p != MACH_TASK_SELF && s.used[p] < NEGATIVE_SIZE
    ensures (forall b :: b in s.used && b != p && b != 0 ==> BlockKept(s, bytes, s', bytes', b)) <==>
            (forall b :: b in s.used && b != p && b != 0 ==> AlreadyHolds(s, bytes, p, b))
  {
    forall b | b in s.used && b != p
      ensures BlockKept(s, bytes, s', bytes', b) <==> AlreadyHolds(s, bytes, p, b)
    {
      FailedMoveAndBlock(s, bytes, s', bytes', p, zeroOnFree, b);
    }
  }

  lemma FailedMoveAndBlock(s: Chunks, bytes: Bytes, s': Chunks, bytes': Bytes, p: nat, zeroOnFree: bool, b: nat)
    requires s.Valid() && MoveFailed(s, bytes, s', bytes', p, zeroOnFree) && b in s.used && b != p
    requires p != MACH_TASK_SELF && s.used[p] < NEGATIVE_SIZE
    ensures BlockKept(s, bytes, s', bytes', b) <==> AlreadyHolds(s, bytes, p, b)
  {
    assert Apart(s.All(), p, b) && Apart(s.All(), b, p);
    if BlockKept(s, bytes, s', bytes', b) {
      forall a: nat | Holds(s.used, b, a) && a < s.used[p] ensures ByteAt(bytes, a) == ByteAt(bytes, p + a) {
        assert ByteAt(bytes', a) == ByteAt(bytes, a);
      }
    }
    if AlreadyHolds(s, bytes, p, b) {
      forall a: nat | b <= a < b + s.used[b] ensures ByteAt(bytes', a) == ByteAt(bytes, a) {
        assert Holds(s.used, b, a);
      }
    }
  }

  /** A block can only grow to a size that fits 32 bits once rounded up. */
  lemma GrownFits(s: Chunks, p: nat, size: nat)
    requires s.Valid() && 0 in s.used && p != 0 && p in s.used && s.used[p] < size && Grown(s, p, size).Some?
    ensures AlignedSize(size).Some?
  {
    assert GoodAt(s.All(), p + s.used[p]);
    AlignedSizeFits(size);
    if size >= PAGE_SIZE {
      assert p % PAGE_SIZE == 0 && p >= PAGE_SIZE;
    }
  }

  lemma GrownInPlace(s: Chunks, p: nat, size: nat, bytes: Bytes, zeroOnFree: bool)
    requires s.Valid() && p in s.used && s.used[p] < size && Grown(s, p, size).Some?
    requires zeroOnFree ==> UnusedIsZero(s, bytes)
    ensures var s' := Grown(s, p, size).value;
            && (zeroOnFree ==> UnusedIsZero(s', bytes) && ZeroRange(bytes, p + s.used[p], s'.used[p] - s.used[p]))
            && p + s'.used[p] <= SPACE_END
  {
    var s' := Grown(s, p, size).value;
    GrowKeepsChunks(s, p, size);
    assert GoodAt(s'.All(), p);
    forall a: nat
      ensures Covered(s'.unused, a) ==> Covered(s.unused, a)
      ensures p + s.used[p] <= a < p + s'.used[p] ==> Covered(s.unused, a)
    {
      GrowTakesUnused(s, p, size, a);
    }
  }

  /** The block is gone, and exactly its bytes have become unused. */
  ghost predicate BlockFreed(s: Chunks, s': Chunks, p: nat) {
    && p in s.used && s'.used == s.used - {p}
    && forall a: nat :: Covered(s'.unused, a) <==> Covered(s.unused, a) || Holds(s.used, p, a)
  }

  lemma FreedBlock(s: Chunks, s': Chunks, p: nat)
    requires s.Valid() && p in s.used
    requires exists neighbour :: IsNeighbour(s.unused, p, s.used[p], neighbour) && s' == Freed(s, p, neighbour)
    ensures BlockFreed(s, s', p)
  {
    var neighbour :| IsNeighbour(s.unused, p, s.used[p], neighbour) && s' == Freed(s, p, neighbour);
    forall a: nat ensures Covered(s'.unused, a) <==> Covered(s.unused, a) || Holds(s.used, p, a) {
      FreeReturnsBytes(s, p, neighbour, a);
    }
  }

  /** One block of at least `size` bytes has been added, out of an unused chunk. */
  ghost predicate BlockAdded(s: Chunks, s': Chunks, p: nat, size: nat) {
    && p !in s.used && p in s'.used && s'.used == s.used[p := s'.used[p]]
    && s'.used[p] >= size && p + s'.used[p] <= SPACE_END
    && p in s.unused && s.unused[p] >= s'.used[p]
  }

  lemma AllocAdds(s: Chunks, p: nat, size: nat)
    requires s.Valid() && 0 in s.used && AlignedSize(size).Some? && BestFit(s.unused, p, AlignedSize(size).value)
    ensures BlockAdded(s, Allocated(s, p, AlignedSize(size).value), p, size)
  {
    AlignedSizeFits(size);
    assert GoodAt(s.All(), p);
    AllocationKeepsChunks(s, p, AlignedSize(size).value);
  }

  lemma AllocatedIsZero(s: Chunks, p: nat, size: nat, bytes: Bytes)
    requires s.Valid() && AlignedSize(size).Some? && BestFit(s.unused, p, AlignedSize(size).value)
            && UnusedIsZero(s, bytes)
    ensures var s' := Allocated(s, p, AlignedSize(size).value);
            UnusedIsZero(s', bytes) && p in s'.used && ZeroRange(bytes, p, s'.used[p])
  {
    AlignedSizeFits(size);
    var n := AlignedSize(size).value;
    AllocationKeepsChunks(s, p, n);
    forall a: nat | Covered(Allocated(s, p, n).unused, a) || p <= a < p + Taken(s.unused, p, n)
      ensures ByteAt(bytes, a) == 0
    {
      AllocationTakesUnused(s, p, n, a);
    }
  }

  // ---------- Inputs for what realloc does not keep ----------

  /** On a new heap, reallocating the one address at which memory is free gives back the new block at once. */
  method ReallocatingFreeMemory(nullSegmentSize: nat, zeroMemoryOnFree: bool) returns (heap: Heap, r: nat)
    requires PAGE_SIZE <= nullSegmentSize < STACK_LOW_END && nullSegmentSize % PAGE_SIZE == 0
    ensures fresh(heap) && r == nullSegmentSize && r !in heap.allocator.used
  {
    heap := new Heap(nullSegmentSize, zeroMemoryOnFree);
    assert AlignedSize(16) == Some(16);
    assert OnlyBestFit(heap.allocator.unused, nullSegmentSize, 16) && !NoFit(heap.allocator.unused, 16);
    r := heap.Realloc(nullSegmentSize, 16);
  }

  /** A first block freed again, and behind it a second one that holds a byte other than zero. */
  method FreeInFrontOfBlock() returns (heap: Heap, b: nat)
    ensures fresh(heap) && fresh(heap.allocator) && heap.zeroMemoryOnFree && heap.Valid()
    ensures b != 0 && b != MACH_TASK_SELF && b in heap.allocator.used && heap.allocator.used[b] == 0x2000
    ensures Covered(heap.allocator.State().unused, 0x1000) && ByteAt(heap.bytes, b + 0x1000) == 1
  {
    var a;
    heap, a, b := TwoBlocks();
    WritingInsideBlocks(heap.allocator.State(), heap.bytes, heap.bytes[b + 0x1000 := 1], b, 0x2000);
    assert GoodAt(heap.allocator.State().All(), b) && Apart(heap.allocator.State().All(), 0, b);
    assert Apart(heap.allocator.State().All(), a, b);
    heap.CorruptByte(b + 0x1000, 1);
    heap.Free(a);
  }

  method TwoBlocks() returns (heap: Heap, a: nat, b: nat)
    ensures fresh(heap) && fresh(heap.allocator) && heap.zeroMemoryOnFree && heap.nullSegmentSize == 0x1000
            && heap.Valid()
    ensures heap.allocator.State() == Chunks(map[0 := 0x1000, STACK_LOW_END := SPACE_END - STACK_LOW_END, a := 0x1000,
                                                 b := 0x2000],
                                             map[0x4000 := STACK_LOW_END - 0x4000])
    ensures a == 0x1000 && b == 0x2000 && ByteAt(heap.bytes, a) == 0
  {
    heap := new Heap(0x1000, true);
    assert AlignedSize(0x1000) == Some(0x1000) && AlignedSize(0x2000) == Some(0x2000);
    assert 0x1000 in heap.allocator.unused;
    a := heap.Alloc(0x1000);
    assert a == 0x1000 && heap.allocator.unused == map[0x2000 := STACK_LOW_END - 0x2000];
    assert 0x2000 in heap.allocator.unused;
    b := heap.Alloc(0x2000);
    assert b == 0x2000 && heap.allocator.unused == map[0x4000 := STACK_LOW_END - 0x4000];
  }

  /**
   Reallocating that second block to more than there is: the copy to address 0 reaches the freed
   memory in front of it, which is no longer zero.
   */
  method FailedReallocDirtiesUnused() returns (heap: Heap, r: nat)
    ensures fresh(heap) && r == 0 && heap.zeroMemoryOnFree && heap.WellFormed() && !heap.Valid()
  {
    var b;
    heap, b := FreeInFrontOfBlock();
    ghost var s, bytes := heap.allocator.State(), heap.bytes;
    r := heap.Realloc(b, MAX_SIZE);
    FailedMoveAndZeroing(s, bytes, heap.allocator.State(), heap.bytes, b);
    assert ByteAt(bytes, b + 0x1000) != 0;
  }

  /**
   The same without freeing the first block: the copy overwrites it, although it is in use and has
   nothing to do with the call.
   */
  method FailedReallocOverwritesBlock() returns (heap: Heap, a: nat, before: byte, r: nat)
    ensures fresh(heap) && r == 0 && a != 0 && a in heap.allocator.used && ByteAt(heap.bytes, a) != before
  {
    var b;
    heap, a, b := TwoBlocks();
    before := ByteAt(heap.bytes, a);
    WritingInsideBlocks(heap.allocator.State(), heap.bytes, heap.bytes[b + 0x1000 := 1], b, 0x2000);
    heap.CorruptByte(b + 0x1000, 1);
    r := heap.Realloc(b, MAX_SIZE);
  }

  /** Three calls on a new heap, the last of which yields a block that is not aligned. */
  method MisalignedBlock(zeroMemoryOnFree: bool) returns (heap: Heap, a: nat, r: nat, b: nat)
    ensures fresh(heap) && a == 0x1000 && r == a && b == 0x1011 && b in heap.allocator.used
  {
    heap := new Heap(PAGE_SIZE, zeroMemoryOnFree);
    ghost var states := GrowingByOneMisalignsTheNextBlock();
    a := AllocSixteen(heap, 0x1000);
    r := heap.Realloc(a, 17);
    b := AllocSixteen(heap, 0x1011);
  }

  method AllocSixteen(heap: Heap, place: nat) returns (p: nat)
    requires heap.Valid() && OnlyBestFit(heap.allocator.unused, place, 16)
    modifies heap, heap.allocator
    ensures heap.Valid() && p == place && heap.allocator.State() == Allocated(old(heap.allocator.State()), p, 16)
  {
    assert AlignedSize(16) == Some(16) && !NoFit(heap.allocator.unused, 16);
    p := heap.Alloc(16);
  }
}
