/**
 Chunks of guest address space (`src/mem/allocator.rs`), as maps from base to size. Every operation of the
 allocator splits chunks, merges neighbours or moves chunks between the used and the unused map, so the
 chunks keep partitioning the address space.
 */
module ChunkMaps {
  import opened Wrappers

  type ChunkMap = map<nat, nat>

  const PAGE_SIZE := 4096
  const MIN_CHUNK_SIZE := 16
  const SPACE_END := 0x1_0000_0000
  const MAX_SIZE := 0xFFFF_FFFF

  // ---------- Layouts ----------

  /** The chunk based at `b` holds the address. */
  predicate Holds(m: ChunkMap, b: nat, a: nat) {
    b in m && b <= a < b + m[b]
  }

  ghost predicate Covered(m: ChunkMap, a: nat) {
    exists b :: Holds(m, b, a)
  }

  predicate Apart(m: ChunkMap, b: nat, c: nat) {
    b in m && c in m && b < c ==> b + m[b] <= c
  }

  ghost predicate Disjoint(m: ChunkMap) {
    forall b, c :: Apart(m, b, c)
  }

  predicate GoodChunk(b: nat, size: nat) {
    size >= MIN_CHUNK_SIZE && b + size <= SPACE_END && (size >= PAGE_SIZE ==> b % PAGE_SIZE == 0)
  }

  predicate GoodAt(m: ChunkMap, b: nat) {
    b in m ==> GoodChunk(b, m[b])
  }

  ghost predicate GoodChunks(m: ChunkMap) {
    forall b :: GoodAt(m, b)
  }

  ghost predicate SameCover(m: ChunkMap, m': ChunkMap) {
    forall a: nat :: Covered(m, a) <==> Covered(m', a)
  }

  /** A chunk cut in two. */
  function Split(m: ChunkMap, b: nat, n: nat): ChunkMap
    requires b in m && 0 < n < m[b]
  {
    m[b := n][b + n := m[b] - n]
  }

  /** A chunk joined with the one that follows it. */
  function Merge(m: ChunkMap, b: nat): ChunkMap
    requires b in m && m[b] > 0 && b + m[b] in m
  {
    (m - {b + m[b]})[b := m[b] + m[b + m[b]]]
  }

  lemma SplitKeepsLayout(m: ChunkMap, b: nat, n: nat)
    requires Disjoint(m) && b in m && 0 < n < m[b]
    ensures Disjoint(Split(m, b, n)) && SameCover(m, Split(m, b, n)) && b + n !in m
  {
    var m' := Split(m, b, n);
    assert Apart(m, b, b + n);
    forall c, d ensures Apart(m', c, d) {
      assert Apart(m, b, c) && Apart(m, b, d);
      assert Apart(m, if c == b + n then b else c, if d == b + n then b else d);
    }
    forall a: nat ensures Covered(m, a) <==> Covered(m', a) {
      if Covered(m, a) {
        var c :| Holds(m, c, a);
        assert Holds(m', c, a) || Holds(m', b + n, a);
      }
      if Covered(m', a) {
        var c :| Holds(m', c, a);
        assert Holds(m, c, a) || Holds(m, b, a);
      }
    }
  }

  lemma MergeKeepsLayout(m: ChunkMap, b: nat)
    requires Disjoint(m) && b in m && m[b] > 0 && b + m[b] in m
    ensures Disjoint(Merge(m, b)) && SameCover(m, Merge(m, b))
  {
    var m', next := Merge(m, b), b + m[b];
    forall c, d ensures Apart(m', c, d) {
      assert Apart(m, c, d) && Apart(m, next, d) && Apart(m, b, next);
    }
    forall a: nat ensures Covered(m, a) <==> Covered(m', a) {
      if Covered(m, a) {
        var c :| Holds(m, c, a);
        assert Holds(m', c, a) || Holds(m', b, a);
      }
      if Covered(m', a) {
        var c :| Holds(m', c, a);
        assert Holds(m, c, a) || Holds(m, b, a) || Holds(m, next, a);
      }
    }
  }

  lemma RemoveUncovers(m: ChunkMap, b: nat, a: nat)
    requires Disjoint(m) && b in m
    ensures Covered(m - {b}, a) <==> Covered(m, a) && !Holds(m, b, a)
  {
    if Covered(m - {b}, a) {
      var c :| Holds(m - {b}, c, a);
      assert Holds(m, c, a) && Apart(m, b, c) && Apart(m, c, b);
    }
    if Covered(m, a) && !Holds(m, b, a) {
      var c :| Holds(m, c, a);
      assert Holds(m - {b}, c, a);
    }
  }

  lemma InsertCovers(m: ChunkMap, b: nat, size: nat, a: nat)
    requires b !in m
    ensures Covered(m[b := size], a) <==> Covered(m, a) || b <= a < b + size
  {
    if Covered(m, a) {
      var c :| Holds(m, c, a);
      assert Holds(m[b := size], c, a);
    }
    if Covered(m[b := size], a) {
      var c :| Holds(m[b := size], c, a);
      assert c != b ==> Holds(m, c, a);
    }
    assert b <= a < b + size ==> Holds(m[b := size], b, a);
  }

  // ---------- The allocator's two maps ----------

  datatype Chunks = Chunks(used: ChunkMap, unused: ChunkMap)
  {
    function All(): ChunkMap {
      used + unused
    }

    /** No chunk overlaps another, and each meets the size and alignment rules. */
    ghost predicate Valid() {
      used.Keys !! unused.Keys && Disjoint(All()) && GoodChunks(All())
    }
  }

  /**
   The size rounded up to whole units of allocation, unless that exceeds 32 bits
   (src/mem/allocator.rs:357-362, 387-394).
   */
  function AlignedSize(size: nat): Option<nat> {
    var unit := if size < PAGE_SIZE then MIN_CHUNK_SIZE else PAGE_SIZE;
    var wanted := if size < MIN_CHUNK_SIZE then MIN_CHUNK_SIZE else size;
    var rounded := if wanted % unit == 0 then wanted else wanted + (unit - wanted % unit);
    if rounded > MAX_SIZE then None else Some(rounded)
  }

  predicate IsAlignedSize(n: nat) {
    n >= MIN_CHUNK_SIZE && n % (if n < PAGE_SIZE then MIN_CHUNK_SIZE else PAGE_SIZE) == 0
  }

  lemma AlignedSizeFits(size: nat)
    ensures AlignedSize(size).Some? ==> IsAlignedSize(AlignedSize(size).value) && size <= AlignedSize(size).value
    ensures AlignedSize(size).None? <==> size > MAX_SIZE - MAX_SIZE % PAGE_SIZE
  {
  }

  /** An unused chunk that is large enough, and none such is smaller. */
  ghost predicate BestFit(unused: ChunkMap, b: nat, n: nat) {
    b in unused && unused[b] >= n && forall c :: c in unused && unused[c] >= n ==> unused[b] <= unused[c]
  }

  /** `p` alone is where a best fit for `n` bytes starts. */
  ghost predicate OnlyBestFit(unused: ChunkMap, p: nat, n: nat) {
    BestFit(unused, p, n) && forall c :: BestFit(unused, c, n) ==> c == p
  }

  /** How much of the chunk is handed out: all of it if the rest is too small for a chunk. */
  function Taken(unused: ChunkMap, b: nat, n: nat): nat
    requires b in unused && unused[b] >= n
  {
    if unused[b] - n < MIN_CHUNK_SIZE then unused[b] else n
  }

  /**
   The chunks after allocating `n` bytes from the chunk at `b` (src/mem/allocator.rs:210-253): a page-sized
   rest that would not start on a page boundary is cut there.
   */
  function Allocated(s: Chunks, b: nat, n: nat): Chunks
    requires b in s.unused && 0 < n <= s.unused[b]
  {
    var size := s.unused[b];
    var rest := size - n;
    var removed := s.unused - {b};
    if rest < MIN_CHUNK_SIZE then Chunks(s.used[b := size], removed)
    else if rest >= PAGE_SIZE && (b + n) % PAGE_SIZE != 0 && n < PAGE_SIZE then
      Chunks(s.used[b := n], removed[b + n := PAGE_SIZE - n][b + PAGE_SIZE := size - PAGE_SIZE])
    else Chunks(s.used[b := n], removed[b + n := rest])
  }

  lemma SplitIsGood(m: ChunkMap, b: nat, n: nat)
    requires GoodChunks(m) && b in m && 0 < n < m[b] && GoodChunk(b, n) && GoodChunk(b + n, m[b] - n)
    ensures GoodChunks(Split(m, b, n))
  {
    var m' := Split(m, b, n);
    forall c ensures GoodAt(m', c) {
      assert GoodAt(m, c);
    }
  }

  lemma SplitUnused(used: ChunkMap, unused: ChunkMap, b: nat, n: nat)
    requires used.Keys !! unused.Keys && b in unused && 0 < n < unused[b] && b + n !in used
    ensures used + Split(unused, b, n) == Split(used + unused, b, n)
    ensures used.Keys !! Split(unused, b, n).Keys
  {
  }

  lemma SplitIsValid(s: Chunks, b: nat, n: nat)
    requires s.Valid() && b in s.unused && 0 < n < s.unused[b]
    requires GoodChunk(b, n) && GoodChunk(b + n, s.unused[b] - n)
    ensures var s' := Chunks(s.used, Split(s.unused, b, n)); s'.Valid() && SameCover(s.All(), s'.All())
  {
    var all := s.All();
    assert all[b] == s.unused[b];
    SplitKeepsLayout(all, b, n);
    assert b + n !in s.used by {
      assert b + n !in all;
    }
    SplitUnused(s.used, s.unused, b, n);
    SplitIsGood(all, b, n);
  }

  /** Handing a chunk over changes no chunk. */
  lemma HandOver(s: Chunks, b: nat)
    requires s.Valid() && b in s.unused
    ensures var s' := Chunks(s.used[b := s.unused[b]], s.unused - {b});
            s'.Valid() && s'.All() == s.All() && b !in s.used
  {
    var s' := Chunks(s.used[b := s.unused[b]], s.unused - {b});
    assert s'.All() == s.All();
  }

  lemma CutAndHandOver(s: Chunks, b: nat, n: nat)
    requires s.Valid() && b in s.unused && 0 < n < s.unused[b]
    requires GoodChunk(b, n) && GoodChunk(b + n, s.unused[b] - n)
    ensures var s' := Chunks(s.used[b := n], (s.unused - {b})[b + n := s.unused[b] - n]);
            s'.Valid() && SameCover(s.All(), s'.All()) && b !in s.used
  {
    SplitIsValid(s, b, n);
    var cut := Chunks(s.used, Split(s.unused, b, n));
    HandOver(cut, b);
    SplitRemoved(s.unused, b, n);
  }

  lemma SplitRemoved(m: ChunkMap, b: nat, n: nat)
    requires b in m && 0 < n < m[b]
    ensures Split(m, b, n) - {b} == (m - {b})[b + n := m[b] - n] && Split(m, b, n)[b] == n
  {
  }

  lemma SplitTwiceRemoved(m: ChunkMap, b: nat, page: nat, n: nat)
    requires b in m && 0 < n < page < m[b]
    ensures (Split(m, b, page) - {b})[b + n := page - n] == (m - {b})[b + n := page - n][b + page := m[b] - page]
    ensures Split(m, b, page)[b] == page
  {
  }

  lemma PartsAreGood(b: nat, size: nat, n: nat)
    requires GoodChunk(b, size) && IsAlignedSize(n) && n + MIN_CHUNK_SIZE <= size
    ensures GoodChunk(b, n)
    ensures size - n < PAGE_SIZE || (b + n) % PAGE_SIZE == 0 ==> GoodChunk(b + n, size - n)
    ensures size - n >= PAGE_SIZE && (b + n) % PAGE_SIZE != 0 ==> (
              && n < PAGE_SIZE && GoodChunk(b, PAGE_SIZE) && GoodChunk(b + n, PAGE_SIZE - n)
              && GoodChunk(b + PAGE_SIZE, size - PAGE_SIZE))
  {
    if n >= PAGE_SIZE {
      PageSum(b, n);
    } else {
      SixteenBelowPage(n);
    }
    if size >= PAGE_SIZE {
      PageSum(b, PAGE_SIZE);
    }
  }

  lemma PageSum(a: nat, b: nat)
    requires a % PAGE_SIZE == 0 && b % PAGE_SIZE == 0
    ensures (a + b) % PAGE_SIZE == 0
  {
    PageMultiple(a + b, a / PAGE_SIZE + b / PAGE_SIZE);
  }

  lemma PageMultiple(n: nat, q: nat)
    requires n == PAGE_SIZE * q
    ensures n % PAGE_SIZE == 0
  {
  }

  lemma SixteenBelowPage(n: nat)
    requires n % MIN_CHUNK_SIZE == 0 && n < PAGE_SIZE
    ensures n + MIN_CHUNK_SIZE <= PAGE_SIZE
  {
    var q := n / MIN_CHUNK_SIZE;
    assert n == MIN_CHUNK_SIZE * q;
  }

  /** Allocation keeps the partition and adds one used chunk. */
  lemma AllocationKeepsChunks(s: Chunks, b: nat, n: nat)
    requires s.Valid() && b in s.unused && IsAlignedSize(n) && n <= s.unused[b]
    ensures Allocated(s, b, n).Valid() && SameCover(s.All(), Allocated(s, b, n).All())
    ensures b !in s.used && Allocated(s, b, n).used == s.used[b := Taken(s.unused, b, n)]
  {
    assert GoodAt(s.All(), b);
    var rest := s.unused[b] - n;
    if rest < MIN_CHUNK_SIZE {
      HandOver(s, b);
    } else {
      PartsAreGood(b, s.unused[b], n);
      if rest >= PAGE_SIZE && (b + n) % PAGE_SIZE != 0 {
        CutTwiceAndHandOver(s, b, n);
      } else {
        CutAndHandOver(s, b, n);
      }
    }
  }

  lemma CutTwiceAndHandOver(s: Chunks, b: nat, n: nat)
    requires s.Valid() && b in s.unused && 0 < n < PAGE_SIZE < s.unused[b]
    requires GoodChunk(b, PAGE_SIZE) && GoodChunk(b + PAGE_SIZE, s.unused[b] - PAGE_SIZE)
    requires GoodChunk(b, n) && GoodChunk(b + n, PAGE_SIZE - n)
    ensures var s' := Chunks(s.used[b := n],
                             (s.unused - {b})[b + n := PAGE_SIZE - n][b + PAGE_SIZE := s.unused[b] - PAGE_SIZE]);
            s'.Valid() && SameCover(s.All(), s'.All()) && b !in s.used
  {
    SplitIsValid(s, b, PAGE_SIZE);
    var cut := Chunks(s.used, Split(s.unused, b, PAGE_SIZE));
    assert cut.unused[b] == PAGE_SIZE;
    CutAndHandOver(cut, b, n);
    SplitTwiceRemoved(s.unused, b, PAGE_SIZE, n);
  }

  /** The bytes handed out were unused, and all others are as before. */
  lemma AllocationTakesUnused(s: Chunks, b: nat, n: nat, a: nat)
    requires s.Valid() && b in s.unused && IsAlignedSize(n) && n <= s.unused[b]
    ensures Covered(Allocated(s, b, n).unused, a) <==> Covered(s.unused, a) && !(b <= a < b + Taken(s.unused, b, n))
    ensures b <= a < b + Taken(s.unused, b, n) ==> Covered(s.unused, a)
  {
    AllocationKeepsChunks(s, b, n);
    UsedOrUnused(s, a);
    UsedOrUnused(Allocated(s, b, n), a);
    InsertCovers(s.used, b, Taken(s.unused, b, n), a);
    assert b <= a < b + Taken(s.unused, b, n) ==> Holds(s.unused, b, a);
  }

  /** A byte in a chunk is either used or unused, never both. */
  lemma UsedOrUnused(s: Chunks, a: nat)
    requires s.Valid()
    ensures Covered(s.All(), a) <==> Covered(s.used, a) || Covered(s.unused, a)
    ensures !(Covered(s.used, a) && Covered(s.unused, a))
  {
    if Covered(s.used, a) {
      var c :| Holds(s.used, c, a);
      assert Holds(s.All(), c, a);
      forall d | Holds(s.unused, d, a) ensures c == d {
        assert Apart(s.All(), c, d) && Apart(s.All(), d, c);
      }
    }
    if Covered(s.unused, a) {
      var c :| Holds(s.unused, c, a);
      assert Holds(s.All(), c, a);
    }
    if Covered(s.All(), a) {
      var c :| Holds(s.All(), c, a);
      assert Holds(s.used, c, a) || Holds(s.unused, c, a);
    }
  }

  // ---------- Freeing ----------

  /**
   The free neighbour to merge with: the one behind the chunk, else the one in front
   (src/mem/allocator.rs:510-514).
   */
  ghost predicate IsNeighbour(unused: ChunkMap, base: nat, size: nat, neighbour: Option<nat>) {
    if base + size in unused then neighbour == Some(base + size)
    else match neighbour
      case Some(c) => c in unused && c + unused[c] == base
      case None => forall c :: c in unused ==> c + unused[c] != base
  }

  /** The chunks after freeing; the merge is dropped if the merged chunk would break the alignment rule. */
  function Freed(s: Chunks, base: nat, neighbour: Option<nat>): Chunks
    requires base in s.used && (neighbour.Some? ==> neighbour.value in s.unused)
  {
    var size, used := s.used[base], s.used - {base};
    match neighbour
    case None => Chunks(used, s.unused[base := size])
    case Some(c) =>
      var lower, total := if base < c then base else c, size + s.unused[c];
      if total >= PAGE_SIZE && lower % PAGE_SIZE != 0 then Chunks(used, s.unused[base := size])
      else Chunks(used, (s.unused - {c})[lower := total])
  }

  lemma GiveBack(s: Chunks, base: nat)
    requires s.Valid() && base in s.used
    ensures var s' := Chunks(s.used - {base}, s.unused[base := s.used[base]]);
            s'.Valid() && s'.All() == s.All() && base !in s.unused
  {
    var s' := Chunks(s.used - {base}, s.unused[base := s.used[base]]);
    assert s'.All() == s.All();
  }

  lemma MergeUnused(used: ChunkMap, unused: ChunkMap, b: nat)
    requires used.Keys !! unused.Keys && b in unused && unused[b] > 0 && b + unused[b] in unused
    ensures used + Merge(unused, b) == Merge(used + unused, b) && used.Keys !! Merge(unused, b).Keys
  {
  }

  lemma MergeIsGood(m: ChunkMap, b: nat)
    requires GoodChunks(m) && b in m && m[b] > 0 && b + m[b] in m && GoodChunk(b, m[b] + m[b + m[b]])
    ensures GoodChunks(Merge(m, b))
  {
    forall c ensures GoodAt(Merge(m, b), c) {
      assert GoodAt(m, c);
    }
  }

  lemma MergeIsValid(s: Chunks, b: nat)
    requires s.Valid() && b in s.unused && s.unused[b] > 0 && b + s.unused[b] in s.unused
    requires GoodChunk(b, s.unused[b] + s.unused[b + s.unused[b]])
    ensures var s' := Chunks(s.used, Merge(s.unused, b)); s'.Valid() && SameCover(s.All(), s'.All())
  {
    MergeKeepsLayout(s.All(), b);
    MergeUnused(s.used, s.unused, b);
    MergeIsGood(s.All(), b);
  }

  lemma MergedWithNext(unused: ChunkMap, base: nat, size: nat)
    requires base !in unused && base + size in unused && size > 0
    ensures Merge(unused[base := size], base) == (unused - {base + size})[base := size + unused[base + size]]
  {
  }

  lemma MergedWithPrevious(unused: ChunkMap, base: nat, size: nat, c: nat)
    requires base !in unused && c in unused && unused[c] > 0 && c + unused[c] == base
    ensures Merge(unused[base := size], c) == (unused - {c})[c := size + unused[c]]
  {
  }

  /** Freeing keeps the partition and moves exactly the chunk's bytes from used to unused. */
  lemma FreeKeepsChunks(s: Chunks, base: nat, neighbour: Option<nat>)
    requires s.Valid() && base in s.used && IsNeighbour(s.unused, base, s.used[base], neighbour)
    ensures Freed(s, base, neighbour).Valid() && SameCover(s.All(), Freed(s, base, neighbour).All())
  {
    var size := s.used[base];
    GiveBack(s, base);
    var back := Chunks(s.used - {base}, s.unused[base := size]);
    assert GoodAt(s.All(), base);
    if neighbour.Some? {
      var c := neighbour.value;
      assert GoodAt(s.All(), c);
      var lower, total := if base < c then base else c, size + s.unused[c];
      if !(total >= PAGE_SIZE && lower % PAGE_SIZE != 0) {
        if c == base + size {
          MergedWithNext(s.unused, base, size);
        } else {
          MergedWithPrevious(s.unused, base, size, c);
        }
        MergeIsValid(back, lower);
      }
    }
  }

  lemma FreeReturnsBytes(s: Chunks, base: nat, neighbour: Option<nat>, a: nat)
    requires s.Valid() && base in s.used && IsNeighbour(s.unused, base, s.used[base], neighbour)
    ensures Covered(Freed(s, base, neighbour).unused, a) <==> Covered(s.unused, a) || Holds(s.used, base, a)
  {
    FreeKeepsChunks(s, base, neighbour);
    UsedOrUnused(s, a);
    UsedOrUnused(Freed(s, base, neighbour), a);
    UsedIsDisjoint(s);
    RemoveUncovers(s.used, base, a);
  }

  lemma UsedIsDisjoint(s: Chunks)
    requires s.Valid()
    ensures Disjoint(s.used)
  {
    forall c, d ensures Apart(s.used, c, d) {
      assert Apart(s.All(), c, d);
    }
  }

  // ---------- Growing in place ----------

  /** The chunks after growing the block at `base` to at least `newSize`, if what follows it allows that. */
  function Grown(s: Chunks, base: nat, newSize: nat): Option<Chunks>
    requires base in s.used && s.used[base] < newSize
  {
    var size := s.used[base];
    var next, extra := base + size, newSize - size;
    if next !in s.unused || s.unused[next] < extra then None else
      var rest := s.unused[next] - extra;
      var whole := s.unused[next] >= PAGE_SIZE || rest < MIN_CHUNK_SIZE;
      var grownSize := if whole then size + s.unused[next] else newSize;
      if grownSize >= PAGE_SIZE && base % PAGE_SIZE != 0 then None
      else Some(Chunks(s.used[base := grownSize],
                       if whole then s.unused - {next} else (s.unused - {next})[next + extra := rest]))
  }

  lemma GrownLayout(s: Chunks, base: nat, newSize: nat)
    requires s.Valid() && base in s.used && s.used[base] < newSize && Grown(s, base, newSize).Some?
    ensures var (s', next, extra) := (Grown(s, base, newSize).value, base + s.used[base], newSize - s.used[base]);
            && s'.used.Keys !! s'.unused.Keys
            && s'.All() == if s'.used[base] == s.used[base] + s.unused[next] then Merge(s.All(), base)
                           else Merge(Split(s.All(), next, extra), base)
  {
    var s', next, extra := Grown(s, base, newSize).value, base + s.used[base], newSize - s.used[base];
    assert GoodAt(s.All(), base) && GoodAt(s.All(), next);
    if s'.used[base] == s.used[base] + s.unused[next] {
      assert s'.All() == Merge(s.All(), base);
    } else {
      SplitKeepsLayout(s.All(), next, extra);
      assert s'.All() == Merge(Split(s.All(), next, extra), base);
    }
  }

  /** Growing keeps the partition; the block keeps its base and takes bytes that were unused. */
  lemma GrowKeepsChunks(s: Chunks, base: nat, newSize: nat)
    requires s.Valid() && base in s.used && s.used[base] < newSize && Grown(s, base, newSize).Some?
    ensures var s' := Grown(s, base, newSize).value;
            s'.Valid() && SameCover(s.All(), s'.All()) && s'.used[base] >= newSize
  {
    var s', next, extra := Grown(s, base, newSize).value, base + s.used[base], newSize - s.used[base];
    GrownLayout(s, base, newSize);
    assert GoodAt(s.All(), base) && GoodAt(s.All(), next);
    if s'.used[base] == s.used[base] + s.unused[next] {
      MergeKeepsLayout(s.All(), base);
    } else {
      SplitKeepsLayout(s.All(), next, extra);
      MergeKeepsLayout(Split(s.All(), next, extra), base);
    }
    forall c ensures GoodAt(s'.All(), c) {
      assert GoodAt(s.All(), c);
    }
  }

  lemma GrowTakesUnused(s: Chunks, base: nat, newSize: nat, a: nat)
    requires s.Valid() && base in s.used && s.used[base] < newSize && Grown(s, base, newSize).Some?
    ensures var (s', next) := (Grown(s, base, newSize).value, base + s.used[base]);
            && (Covered(s'.unused, a) <==> Covered(s.unused, a) && !(next <= a < base + s'.used[base]))
            && (next <= a < base + s'.used[base] ==> Covered(s.unused, a))
  {
    var s', next := Grown(s, base, newSize).value, base + s.used[base];
    GrowKeepsChunks(s, base, newSize);
    UsedOrUnused(s, a);
    UsedOrUnused(s', a);
    UsedIsDisjoint(s);
    UsedIsDisjoint(s');
    RemoveUncovers(s.used, base, a);
    RemoveUncovers(s'.used, base, a);
    assert s'.used - {base} == s.used - {base};
    assert next <= a < base + s'.used[base] ==> Holds(s.unused, next, a);
    assert Covered(s.used, a) <==> Covered(s.used - {base}, a) || Holds(s.used, base, a);
    assert Covered(s'.used, a) <==> Covered(s.used - {base}, a) || Holds(s'.used, base, a);
  }

  // ---------- Runs ----------

  const STACK_LOW_END := 0xFFF0_0000

  /** The null segment and the main thread's stack are used, what lies between is not. */
  function Initial(nullSegmentSize: nat): Chunks
    requires nullSegmentSize < STACK_LOW_END
  {
    Chunks(map[0 := nullSegmentSize, STACK_LOW_END := SPACE_END - STACK_LOW_END],
           map[nullSegmentSize := STACK_LOW_END - nullSegmentSize])
  }

  ghost predicate Step(s: Chunks, s': Chunks) {
    || s' == s
    || (exists b, n :: b in s.unused && IsAlignedSize(n) && n <= s.unused[b] && s' == Allocated(s, b, n))
    || (exists b, neighbour ::
          b in s.used && IsNeighbour(s.unused, b, s.used[b], neighbour) && s' == Freed(s, b, neighbour))
    || (exists b, n :: b in s.used && s.used[b] < n && Grown(s, b, n) == Some(s'))
  }

  ghost predicate IsRun(states: seq<Chunks>) {
    states != [] && forall i :: 0 <= i < |states| - 1 ==> Step(states[i], states[i + 1])
  }

  /** Every address belongs to exactly one chunk, which is either used or unused. */
  ghost predicate Partitions(s: Chunks) {
    s.Valid() && forall a: nat :: a < SPACE_END <==> Covered(s.All(), a)
  }

  lemma InitialPartitions(nullSegmentSize: nat)
    requires PAGE_SIZE <= nullSegmentSize < STACK_LOW_END && nullSegmentSize % PAGE_SIZE == 0
    ensures Partitions(Initial(nullSegmentSize))
  {
    var s := Initial(nullSegmentSize);
    assert s.All() == map[0 := nullSegmentSize, STACK_LOW_END := SPACE_END - STACK_LOW_END,
                          nullSegmentSize := STACK_LOW_END - nullSegmentSize];
    forall c ensures GoodAt(s.All(), c) {
      assert STACK_LOW_END % PAGE_SIZE == 0;
    }
    forall a: nat ensures a < SPACE_END <==> Covered(s.All(), a) {
      var b := if a < nullSegmentSize then 0 else if a < STACK_LOW_END then nullSegmentSize else STACK_LOW_END;
      assert a < SPACE_END ==> Holds(s.All(), b, a);
    }
  }

  lemma StepKeepsCover(s: Chunks, s': Chunks)
    requires s.Valid() && Step(s, s')
    ensures s'.Valid() && SameCover(s.All(), s'.All())
  {
    if s' != s {
      if b, n :| b in s.unused && IsAlignedSize(n) && n <= s.unused[b] && s' == Allocated(s, b, n) {
        AllocationKeepsChunks(s, b, n);
      } else if b, neighbour :|
        b in s.used && IsNeighbour(s.unused, b, s.used[b], neighbour) && s' == Freed(s, b, neighbour)
      {
        FreeKeepsChunks(s, b, neighbour);
      } else if b, n :| b in s.used && s.used[b] < n && Grown(s, b, n) == Some(s') {
        GrowKeepsChunks(s, b, n);
      }
    }
  }

  /** No allocation history loses a byte or gives one out twice. */
  lemma {:induction false} RunsPartition(states: seq<Chunks>, nullSegmentSize: nat, i: nat)
    requires PAGE_SIZE <= nullSegmentSize < STACK_LOW_END && nullSegmentSize % PAGE_SIZE == 0
    requires IsRun(states) && states[0] == Initial(nullSegmentSize) && i < |states|
    ensures Partitions(states[i])
  {
    if i == 0 {
      InitialPartitions(nullSegmentSize);
    } else {
      RunsPartition(states, nullSegmentSize, i - 1);
      StepKeepsCover(states[i - 1], states[i - 1 + 1]);
    }
  }

  // ---------- Alignment of blocks ----------

  predicate SixteenAt(m: ChunkMap, b: nat) {
    b in m ==> b % MIN_CHUNK_SIZE == 0 && m[b] % MIN_CHUNK_SIZE == 0
  }

  /** Every chunk starts and ends on a 16-byte boundary, as blocks are meant to. */
  ghost predicate SixteenAligned(m: ChunkMap) {
    forall b :: SixteenAt(m, b)
  }

  lemma SixteenParts(b: nat, size: nat, n: nat)
    requires b % MIN_CHUNK_SIZE == 0 && size % MIN_CHUNK_SIZE == 0 && IsAlignedSize(n) && n <= size
    ensures n % MIN_CHUNK_SIZE == 0 && (b + n) % MIN_CHUNK_SIZE == 0 && (size - n) % MIN_CHUNK_SIZE == 0
  {
    AlignedIsSixteen(n);
    SixteenSum(b, n);
    SixteenDifference(size, n);
  }

  lemma SixteenDifference(a: nat, b: nat)
    requires a % MIN_CHUNK_SIZE == 0 && b % MIN_CHUNK_SIZE == 0 && b <= a
    ensures (a - b) % MIN_CHUNK_SIZE == 0
  {
    SixteenMultiple(a - b, a / MIN_CHUNK_SIZE - b / MIN_CHUNK_SIZE);
  }

  lemma AlignedIsSixteen(n: nat)
    requires IsAlignedSize(n)
    ensures n % MIN_CHUNK_SIZE == 0
  {
    if n >= PAGE_SIZE {
      SixteenMultiple(n, 256 * (n / PAGE_SIZE));
    }
  }

  lemma SixteenMultiple(n: int, q: int)
    requires n == MIN_CHUNK_SIZE * q
    ensures n % MIN_CHUNK_SIZE == 0
  {
  }

  lemma AllocationKeepsSixteen(s: Chunks, b: nat, n: nat)
    requires s.Valid() && SixteenAligned(s.All()) && b in s.unused && IsAlignedSize(n) && n <= s.unused[b]
    ensures SixteenAligned(Allocated(s, b, n).All())
  {
    assert SixteenAt(s.All(), b);
    SixteenParts(b, s.unused[b], n);
    forall c ensures SixteenAt(Allocated(s, b, n).All(), c) {
      assert SixteenAt(s.All(), c);
    }
  }

  lemma FreeKeepsSixteen(s: Chunks, base: nat, neighbour: Option<nat>)
    requires s.Valid() && SixteenAligned(s.All()) && base in s.used
            && IsNeighbour(s.unused, base, s.used[base], neighbour)
    ensures SixteenAligned(Freed(s, base, neighbour).All())
  {
    forall c ensures SixteenAt(Freed(s, base, neighbour).All(), c) {
      assert SixteenAt(s.All(), c) && SixteenAt(s.All(), base);
      assert neighbour.Some? ==> SixteenAt(s.All(), neighbour.value);
    }
  }

  /** The block takes the whole chunk after it: a page or more, or too little would be left over. */
  predicate TakesWholeChunk(s: Chunks, base: nat, newSize: nat)
    requires base in s.used && base + s.used[base] in s.unused
  {
    var room, extra := s.unused[base + s.used[base]], newSize - s.used[base];
    room >= PAGE_SIZE || room - extra < MIN_CHUNK_SIZE
  }

  /**
   Growing in place keeps the alignment exactly when the wanted size is a multiple of 16 or the block
   takes the whole chunk after it.
   */
  lemma GrowKeepsSixteen(s: Chunks, base: nat, newSize: nat)
    requires s.Valid() && SixteenAligned(s.All()) && base in s.used && s.used[base] < newSize
            && Grown(s, base, newSize).Some?
    ensures SixteenAligned(Grown(s, base, newSize).value.All()) <==>
            newSize % MIN_CHUNK_SIZE == 0 || TakesWholeChunk(s, base, newSize)
  {
    var s', next := Grown(s, base, newSize).value, base + s.used[base];
    assert SixteenAt(s.All(), base) && SixteenAt(s.All(), next) && GoodAt(s.All(), next);
    if TakesWholeChunk(s, base, newSize) {
      SixteenSum(s.used[base], s.unused[next]);
    }
    AlignedAfterGrowing(s, base, newSize);
  }

  lemma SixteenSum(a: nat, b: nat)
    requires a % MIN_CHUNK_SIZE == 0 && b % MIN_CHUNK_SIZE == 0
    ensures (a + b) % MIN_CHUNK_SIZE == 0
  {
    SixteenMultiple(a + b, a / MIN_CHUNK_SIZE + b / MIN_CHUNK_SIZE);
  }

  lemma AlignedChunkAfterGrowing(s: Chunks, base: nat, newSize: nat, c: nat)
    requires s.Valid() && SixteenAligned(s.All()) && base in s.used && s.used[base] < newSize
            && Grown(s, base, newSize).Some? && Grown(s, base, newSize).value.used[base] % MIN_CHUNK_SIZE == 0
    ensures SixteenAt(Grown(s, base, newSize).value.All(), c)
  {
    var s', next := Grown(s, base, newSize).value, base + s.used[base];
    assert SixteenAt(s.All(), c) && SixteenAt(s.All(), base) && SixteenAt(s.All(), next);
    var end := base + s'.used[base];
    if c == end && c in s'.unused && c !in s.unused {
      SixteenSum(base, s'.used[base]);
      assert s'.unused[c] + end == next + s.unused[next];
    }
  }

  lemma AlignedAfterGrowing(s: Chunks, base: nat, newSize: nat)
    requires s.Valid() && SixteenAligned(s.All()) && base in s.used && s.used[base] < newSize
            && Grown(s, base, newSize).Some?
    ensures var s' := Grown(s, base, newSize).value;
            SixteenAligned(s'.All()) <==> s'.used[base] % MIN_CHUNK_SIZE == 0
  {
    var s', next := Grown(s, base, newSize).value, base + s.used[base];
    assert SixteenAt(s.All(), base) && SixteenAt(s.All(), next) && GoodAt(s.All(), next);
    if s'.used[base] % MIN_CHUNK_SIZE == 0 {
      forall c ensures SixteenAt(s'.All(), c) {
        AlignedChunkAfterGrowing(s, base, newSize, c);
      }
    } else {
      GrownLayout(s, base, newSize);
      assert base in s'.All() && s'.All()[base] == s'.used[base];
      assert !SixteenAt(s'.All(), base);
    }
  }

  /**
   Blocks are documented to be 16-byte aligned (src/mem/allocator.rs:10-12), but on a new heap, growing a
   block of 16 bytes to 17 leaves a free chunk at an odd address, which the next allocation returns.
   */
  lemma GrowingByOneMisalignsTheNextBlock() returns (states: seq<Chunks>)
    ensures |states| == 4 && states[0] == Initial(PAGE_SIZE) && IsRun(states)
    ensures OnlyBestFit(states[0].unused, 0x1000, 16) && states[1] == Allocated(states[0], 0x1000, 16)
    ensures Grown(states[1], 0x1000, 17) == Some(states[2])
    ensures OnlyBestFit(states[2].unused, 0x1011, 16) && states[3] == Allocated(states[2], 0x1011, 16)
    ensures SixteenAligned(states[1].All()) && 0x1011 in states[3].used && 0x1011 % 16 != 0
  {
    var s0 := Initial(PAGE_SIZE);
    var s1 := Allocated(s0, 0x1000, 16);
    SecondPage(s1);
    var s2 := Grown(s1, 0x1000, 17).value;
    assert s2.unused == map[0x1011 := 0xFEF, 0x2000 := STACK_LOW_END - 0x2000];
    var s3 := Allocated(s2, 0x1011, 16);
    assert IsAlignedSize(16);
    assert Step(s0, s1) && Step(s1, s2) && Step(s2, s3);
    states := [s0, s1, s2, s3];
  }

  lemma SecondPage(s: Chunks)
    requires s == Allocated(Initial(PAGE_SIZE), 0x1000, 16)
    ensures s.used == map[0 := 0x1000, STACK_LOW_END := SPACE_END - STACK_LOW_END, 0x1000 := 16]
    ensures s.unused == map[0x1010 := 0xFF0, 0x2000 := STACK_LOW_END - 0x2000]
    ensures SixteenAligned(s.All())
  {
    assert s.All().Keys == {0, STACK_LOW_END, 0x1000, 0x1010, 0x2000};
  }
}
