/** The allocator of guest memory (`src/mem/allocator.rs`), updating its two chunk maps in place. */
module GuestAllocator {
  import opened Wrappers
  import opened ChunkMaps
  import opened Reservations

  /** The size bucket of a chunk: its binary logarithm, from 0 for chunks of 16 to 31 bytes. */
  function Bucket(size: nat): nat {
    if size < 2 * MIN_CHUNK_SIZE then 0 else 1 + Bucket(size / 2)
  }

  /** The bucket of a chunk that fills the whole address space; no chunk has a higher one. */
  const BUCKETS := 28

  lemma {:induction false} BucketGrows(small: nat, large: nat)
    requires small <= large
    ensures Bucket(small) <= Bucket(large)
    decreases large
  {
    if small >= 2 * MIN_CHUNK_SIZE {
      BucketGrows(small / 2, large / 2);
    }
  }

  /** Where bucket `k` ends. */
  function BucketEnd(k: nat): nat {
    if k == 0 then 32 else 2 * BucketEnd(k - 1)
  }

  /** Bucket 0 holds the sizes below 32, and every further one goes up to twice as large. */
  lemma {:induction false} BucketBefore(size: nat, k: nat)
    ensures Bucket(size) <= k <==> size < BucketEnd(k)
  {
    if size >= 2 * MIN_CHUNK_SIZE && k > 0 {
      BucketBefore(size / 2, k - 1);
    } else if k > 0 {
      BucketBefore(size, k - 1);
    }
  }

  lemma BucketBound(size: nat)
    requires size <= SPACE_END
    ensures Bucket(size) <= BUCKETS
  {
    assert BucketEnd(7) == 0x1000 && BucketEnd(14) == 0x8_0000 && BucketEnd(21) == 0x400_0000;
    assert BucketEnd(28) == 0x2_0000_0000;
    BucketBefore(size, BUCKETS);
  }

  /** The smallest fit of the first bucket that has one is the best fit of all. */
  lemma FirstBucketHasBestFit(unused: ChunkMap, best: nat, n: nat)
    requires best in unused && unused[best] >= n
    requires forall c :: c in unused && Bucket(unused[c]) < Bucket(unused[best]) ==> unused[c] < n
    requires forall c :: c in unused && Bucket(unused[c]) == Bucket(unused[best]) && unused[c] >= n ==>
            unused[best] <= unused[c]
    ensures BestFit(unused, best, n)
  {
    forall c | c in unused && unused[c] >= n ensures unused[best] <= unused[c] {
      if unused[c] < unused[best] {
        BucketGrows(unused[c], unused[best]);
      }
    }
  }

  datatype ReserveOutcome = Done | Skipped | Panicked

  class Allocator {
    var used: ChunkMap
    var unused: ChunkMap

    function State(): Chunks
      reads this
    {
      Chunks(used, unused)
    }

    /** `Allocator::new` followed by the reservation of the null segment. */
    constructor (nullSegmentSize: nat)
      requires PAGE_SIZE <= nullSegmentSize < STACK_LOW_END && nullSegmentSize % PAGE_SIZE == 0
      ensures State() == Initial(nullSegmentSize) && State().Valid()
    {
      used := map[0 := nullSegmentSize, STACK_LOW_END := SPACE_END - STACK_LOW_END];
      unused := map[nullSegmentSize := STACK_LOW_END - nullSegmentSize];
      InitialPartitions(nullSegmentSize);
    }

    /** The unused chunk that holds a whole range, if there is one. */
    method FindEnclosing(base: nat, size: nat) returns (found: Option<nat>)
      ensures found.Some? ==> Encloses(unused, found.value, base, size)
      ensures found.None? ==> forall c :: !Encloses(unused, c, base, size)
    {
      found := None;
      var remaining: set<nat> := unused.Keys;
      while remaining != {}
        invariant forall c :: Encloses(unused, c, base, size) ==> c in remaining
        decreases |remaining|
      {
        var c: nat :| c in remaining;
        if Encloses(unused, c, base, size) {
          return Some(c);
        }
        remaining := remaining - {c};
      }
    }

    /**
     `reserve`: a range inside an unused chunk is cut out of it, a range that is not is skipped with a
     warning, and a left-over range that breaks the alignment rule panics.
     */
    method Reserve(base: nat, size: nat) returns (outcome: ReserveOutcome)
      requires State().Valid() && GoodChunk(base, size)
      modifies this
      ensures outcome.Skipped? <==> forall c :: c in old(unused) ==> !(c <= base && base + size <= c + old(unused)[c])
      ensures outcome.Panicked? ==> (base + size) % 4096 != 0
      ensures outcome.Done? ==> used == old(used)[base := size]
      ensures outcome.Panicked? ==> exists c ::
                  Encloses(old(unused), c, base, size) && Reserved(old(State()), c, base, size).None?
      ensures outcome.Done? ==> State().Valid() && exists c ::
                  Encloses(old(unused), c, base, size) && Reserved(old(State()), c, base, size) == Some(State())
      ensures !outcome.Done? ==> State() == old(State())
    {
      var found := FindEnclosing(base, size);
      if found.None? {
        forall c | c in unused ensures !(c <= base && base + size <= c + unused[c]) {
          assert !Encloses(unused, c, base, size);
        }
        return Skipped;
      }
      outcome := Cut(found.value, base, size);
    }

    /** The end of `reserve`, once the chunk is found. */
    method Cut(c: nat, base: nat, size: nat) returns (outcome: ReserveOutcome)
      requires State().Valid() && GoodChunk(base, size) && Encloses(unused, c, base, size)
      modifies this
      ensures outcome == if Reserved(old(State()), c, base, size).Some? then Done else Panicked
      ensures outcome.Done? ==> State().Valid() && Reserved(old(State()), c, base, size) == Some(State())
      ensures outcome.Panicked? ==> State() == old(State())
      ensures outcome.Done? ==> used == old(used)[base := size]
      ensures outcome.Panicked? ==> (base + size) % 4096 != 0
    {
      var end, after := base + size, c + unused[c] - (base + size);
      if after >= PAGE_SIZE && end % PAGE_SIZE != 0 {
        return Panicked;
      }
      ghost var s := State();
      unused := unused - {c};
      if base - c >= MIN_CHUNK_SIZE {
        unused := unused[c := base - c];
      }
      if after >= MIN_CHUNK_SIZE {
        unused := unused[end := after];
      }
      used := used[base := size];
      assert State() == Reserved(s, c, base, size).value;
      ReserveIsDisjoint(s, c, base, size);
      outcome := Done;
    }

    /** The smallest chunk of one bucket that is large enough (src/mem/allocator.rs:186-208). */
    method FindInBucket(n: nat, bucket: nat) returns (best: Option<nat>)
      ensures best.None? ==> forall c :: c in unused && Bucket(unused[c]) == bucket ==> unused[c] < n
      ensures best.Some? ==> best.value in unused && Bucket(unused[best.value]) == bucket && unused[best.value] >= n
      ensures best.Some? ==> forall c :: c in unused && Bucket(unused[c]) == bucket && unused[c] >= n ==>
                unused[best.value] <= unused[c]
    {
      best := None;
      var remaining: set<nat> := set c: nat | c in unused && Bucket(unused[c]) == bucket;
      while remaining != {}
        invariant forall c :: c in remaining ==> c in unused && Bucket(unused[c]) == bucket
        invariant best.None? ==> forall c :: c in unused && Bucket(unused[c]) == bucket && c !in remaining ==>
                unused[c] < n
        invariant best.Some? ==> best.value in unused && Bucket(unused[best.value]) == bucket && unused[best.value] >= n
        invariant best.Some? ==> forall c ::
                    c in unused && Bucket(unused[c]) == bucket && unused[c] >= n && c !in remaining ==>
                      unused[best.value] <= unused[c]
        decreases |remaining|
      {
        var c :| c in remaining;
        remaining := remaining - {c};
        if unused[c] >= n && (best.None? || unused[best.value] > unused[c]) {
          best := Some(c);
        }
      }
    }

    /**
     The search of `allocate` (src/mem/allocator.rs:256-276): the requested size's own bucket first, then the
     next ones. It finds the best fit among all chunks, and fails only if no chunk is large enough.
     */
    method FindChunk(n: nat) returns (best: Option<nat>)
      requires State().Valid() && n <= MAX_SIZE
      ensures best.Some? ==> BestFit(unused, best.value, n)
      ensures best.None? ==> forall c :: c in unused ==> unused[c] < n
    {
      var bucket := Bucket(n);
      forall c | c in unused && unused[c] >= n ensures Bucket(n) <= Bucket(unused[c]) <= BUCKETS {
        BucketGrows(n, unused[c]);
        assert GoodAt(State().All(), c);
        BucketBound(unused[c]);
      }
      best := FindInBucket(n, bucket);
      while best.None? && bucket < BUCKETS
        invariant best.None? ==> forall c :: c in unused && Bucket(unused[c]) <= bucket ==> unused[c] < n
        invariant best.Some? ==> best.value in unused && Bucket(unused[best.value]) == bucket && unused[best.value] >= n
        invariant best.Some? ==> forall c :: c in unused && Bucket(unused[c]) < bucket ==> unused[c] < n
        invariant best.Some? ==> forall c :: c in unused && Bucket(unused[c]) == bucket && unused[c] >= n ==>
                    unused[best.value] <= unused[c]
        decreases BUCKETS - bucket
      {
        bucket := bucket + 1;
        best := FindInBucket(n, bucket);
      }
      if best.Some? {
        FirstBucketHasBestFit(unused, best.value, n);
      }
    }

    method Alloc(size: nat) returns (base: nat)
      requires State().Valid() && 0 in used && size <= MAX_SIZE
      modifies this
      ensures State().Valid()
      ensures base == 0 <==> AlignedSize(size).None? || forall c :: c in old(unused) ==>
              old(unused)[c] < AlignedSize(size).value
      ensures base == 0 ==> State() == old(State())
      ensures base != 0 ==> BestFit(old(unused), base, AlignedSize(size).value)
                            && State() == Allocated(old(State()), base, AlignedSize(size).value)
    {
      var aligned := AlignedSize(size);
      if aligned.None? {
        return 0;
      }
      AlignedSizeFits(size);
      var n := aligned.value;
      var found := FindChunk(n);
      if found.None? {
        return 0;
      }
      base := found.value;
      assert GoodAt(State().All(), base);
      AllocationKeepsChunks(State(), base, n);
      var chunkSize := unused[base];
      unused := unused - {base};
      var rest := chunkSize - n;
      if rest == 0 {
        used := used[base := chunkSize];
      } else if rest >= PAGE_SIZE && (base + n) % PAGE_SIZE != 0 {
        PartsAreGood(base, chunkSize, n);
        unused := unused[base + n := PAGE_SIZE - n];
        unused := unused[base + PAGE_SIZE := chunkSize - PAGE_SIZE];
        used := used[base := n];
      } else if rest >= MIN_CHUNK_SIZE {
        unused := unused[base + n := rest];
        used := used[base := n];
      } else {
        used := used[base := chunkSize];
      }
      assert State() == Allocated(old(State()), base, n);
    }

    method FindAllocatedSize(base: nat) returns (size: nat)
      ensures size == if base in used then used[base] else 0
    {
      size := if base in used then used[base] else 0;
    }

    method GrowInPlace(base: nat, oldSize: nat, newSize: nat) returns (grown: Option<nat>)
      requires State().Valid() && oldSize < newSize && (base in used ==> used[base] == oldSize)
      modifies this
      ensures State().Valid()
      ensures grown.Some? <==> base in old(used) && Grown(old(State()), base, newSize).Some?
      ensures grown.None? ==> State() == old(State())
      ensures grown.Some? ==>
                State() == Grown(old(State()), base, newSize).value && grown.value == used[base] >= newSize
    {
      var extra := newSize - oldSize;
      if base !in used {
        return None;
      }
      var next := base + oldSize;
      if next !in unused {
        return None;
      }
      var nextSize := unused[next];
      unused := unused - {next};
      if nextSize < extra {
        unused := unused[next := nextSize];
        assert unused == old(unused);
        return None;
      }
      var grownSize := if nextSize >= PAGE_SIZE || nextSize - extra < MIN_CHUNK_SIZE then oldSize + nextSize
          else newSize;
      if grownSize >= PAGE_SIZE && base % PAGE_SIZE != 0 {
        unused := unused[next := nextSize];
        assert unused == old(unused);
        return None;
      }
      GrowKeepsChunks(old(State()), base, newSize);
      if nextSize < PAGE_SIZE {
        var rest := nextSize - extra;
        if rest >= MIN_CHUNK_SIZE {
          unused := unused[next + extra := rest];
        }
      }
      used := used[base := grownSize];
      assert State() == Grown(old(State()), base, newSize).value;
      grown := Some(grownSize);
    }

    method Free(base: nat) returns (size: nat)
      requires State().Valid()
      modifies this
      ensures State().Valid()
      ensures base !in old(used) ==> State() == old(State()) && size == 0
      ensures base in old(used) ==> size == old(used)[base] && exists neighbour ::
                IsNeighbour(old(unused), base, size, neighbour) && State() == Freed(old(State()), base, neighbour)
    {
      if base !in used {
        return 0;
      }
      size := used[base];
      assert GoodAt(State().All(), base);
      var neighbour := FindNeighbour(base, size);
      FreeKeepsChunks(State(), base, neighbour);
      used := used - {base};
      match neighbour {
        case None =>
          unused := unused[base := size];
        case Some(c) =>
          var neighbourSize := unused[c];
          unused := unused - {c};
          var newBase := if base < c then base else c;
          if size + neighbourSize >= PAGE_SIZE && newBase % PAGE_SIZE != 0 {
            unused := unused[c := neighbourSize];
            unused := unused[base := size];
            assert unused == old(unused)[base := size];
          } else {
            unused := unused[newBase := size + neighbourSize];
          }
      }
      assert State() == Freed(old(State()), base, neighbour);
    }

    /** The chunk behind, or else the last chunk in front if it ends where this one starts. */
    method FindNeighbour(base: nat, size: nat) returns (neighbour: Option<nat>)
      requires State().Valid() && size > 0
      ensures IsNeighbour(unused, base, size, neighbour)
    {
      if base + size in unused {
        return Some(base + size);
      }
      var before := set c | c in unused && c < base;
      if before == {} {
        forall c | c in unused ensures c + unused[c] != base {
          assert GoodAt(State().All(), c);
          assert c < base ==> c in before;
        }
        return None;
      }
      var last := Last(before);
      if last + unused[last] == base {
        return Some(last);
      }
      forall c | c in unused ensures c + unused[c] != base {
        assert GoodAt(State().All(), c) && Apart(State().All(), c, last);
        assert c < base ==> c in before;
        assert GoodAt(State().All(), last);
      }
      neighbour := None;
    }

    method Last(bases: set<nat>) returns (last: nat)
      requires bases != {}
      ensures last in bases && forall c :: c in bases ==> c <= last
    {
      last :| last in bases;
      var remaining := bases - {last};
      while remaining != {}
        invariant last in bases && remaining <= bases && forall c :: c in bases ==> c in remaining || c <= last
        decreases |remaining|
      {
        var c :| c in remaining;
        remaining := remaining - {c};
        if c > last {
          last := c;
        }
      }
    }

    /** The blocks in use, by ascending base. */
    method LiveAllocations() returns (blocks: seq<(nat, nat)>)
      ensures ListsChunks(blocks, used)
    {
      blocks := [];
      var remaining := used.Keys;
      ghost var listed: set<nat> := {};
      while remaining != {}
        invariant listed + remaining == used.Keys && ListsKeys(blocks, used, listed)
        invariant AllBelow(listed, remaining)
        decreases |remaining|
      {
        var first := First(remaining);
        AppendChunk(blocks, used, listed, first);
        SmallestIsNext(listed, remaining, first);
        blocks := blocks + [(first, used[first])];
        remaining := remaining - {first};
        listed := listed + {first};
      }
    }

    method First(bases: set<nat>) returns (first: nat)
      requires bases != {}
      ensures first in bases && forall c :: c in bases ==> first <= c
    {
      first :| first in bases;
      var remaining := bases - {first};
      while remaining != {}
        invariant first in bases && remaining <= bases && forall c :: c in bases ==> c in remaining || first <= c
        decreases |remaining|
      {
        var c :| c in remaining;
        remaining := remaining - {c};
        if c < first {
          first := c;
        }
      }
    }
  }

  ghost predicate AllBelow(lower: set<nat>, upper: set<nat>) {
    forall b, c :: b in lower && c in upper ==> b < c
  }

  lemma SmallestIsNext(lower: set<nat>, upper: set<nat>, first: nat)
    requires AllBelow(lower, upper) && first in upper && forall c :: c in upper ==> first <= c
    ensures AllBelow(lower + {first}, upper - {first})
  {
  }

  ghost predicate Listed(blocks: seq<(nat, nat)>, b: nat) {
    exists i :: 0 <= i < |blocks| && blocks[i].0 == b
  }

  /** The list names each of these chunks once, in ascending order. */
  ghost predicate ListsKeys(blocks: seq<(nat, nat)>, m: ChunkMap, keys: set<nat>) {
    && (forall i :: 0 <= i < |blocks| ==> blocks[i].0 in keys && blocks[i].0 in m && blocks[i].1 == m[blocks[i].0])
    && (forall b :: b in keys ==> Listed(blocks, b))
    && (forall i, j :: 0 <= i < j < |blocks| ==> blocks[i].0 < blocks[j].0)
  }

  ghost predicate ListsChunks(blocks: seq<(nat, nat)>, m: ChunkMap) {
    ListsKeys(blocks, m, m.Keys)
  }

  lemma AppendChunk(blocks: seq<(nat, nat)>, m: ChunkMap, keys: set<nat>, b: nat)
    requires ListsKeys(blocks, m, keys) && b in m && forall c :: c in keys ==> c < b
    ensures ListsKeys(blocks + [(b, m[b])], m, keys + {b})
  {
    var blocks' := blocks + [(b, m[b])];
    forall c | c in keys + {b} ensures Listed(blocks', c) {
      if c == b {
        assert blocks'[|blocks|].0 == b;
      } else {
        var i :| 0 <= i < |blocks| && blocks[i].0 == c;
        assert blocks'[i].0 == c;
      }
    }
  }
}
