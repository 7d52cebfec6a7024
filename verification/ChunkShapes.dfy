/**
 How the allocator (`src/mem/allocator.rs`) cuts and merges: it leaves chunks as large as the size and
 alignment rules allow, and does not touch the others.
 */
module ChunkShapes {
  import opened Wrappers
  import opened ChunkMaps

  /** A request is rounded up no further than it has to be, and fails only if 32 bits are too few. */
  lemma AlignedSizeIsLeast(size: nat, n: nat)
    requires IsAlignedSize(n) && size <= n
    ensures AlignedSize(size).Some? ==> AlignedSize(size).value <= n
    ensures n <= MAX_SIZE ==> AlignedSize(size).Some?
  {
    if size >= PAGE_SIZE {
      LeastMultiple(PAGE_SIZE, size, n);
    } else if n < PAGE_SIZE && size >= MIN_CHUNK_SIZE {
      LeastMultiple(MIN_CHUNK_SIZE, size, n);
    }
  }

  lemma LeastMultiple(unit: nat, size: nat, n: nat)
    requires (unit == MIN_CHUNK_SIZE || unit == PAGE_SIZE) && n % unit == 0 && size <= n
    ensures (if size % unit == 0 then size else size + (unit - size % unit)) <= n
  {
    var k, q := n / unit, size / unit;
    assert n == unit * k && size == unit * q + size % unit;
  }

  /** The chunks other than those at `bases` are the same in both maps. */
  ghost predicate SameBut(m: ChunkMap, m': ChunkMap, bases: set<nat>) {
    m - bases == m' - bases
  }

  /** `m` has a chunk of this size there. */
  predicate HasChunk(m: ChunkMap, b: nat, size: int) {
    b in m && m[b] == size
  }

  /**
   What allocation makes of a chunk: a rest of less than 16 bytes is handed out, too; any other is one chunk if
   the rules allow that, and otherwise is cut at the next page boundary.
   */
  lemma RestOfChunk(s: Chunks, b: nat, n: nat)
    requires s.Valid() && b in s.unused && IsAlignedSize(n) && n <= s.unused[b]
    ensures var (s', rest) := (Allocated(s, b, n), s.unused[b] - n);
            && b !in s'.unused && SameBut(s.used, s'.used, {b})
            && HasChunk(s'.used, b, if rest < 16 then s.unused[b] else n)
            && (rest < 16 ==> SameBut(s.unused, s'.unused, {b}))
            && (rest >= 16 && GoodChunk(b + n, rest) ==>
                  HasChunk(s'.unused, b + n, rest) && SameBut(s.unused, s'.unused, {b, b + n}))
            && (rest >= 16 && !GoodChunk(b + n, rest) ==>
                  && HasChunk(s'.unused, b + n, 4096 - n) && HasChunk(s'.unused, b + 4096, rest + n - 4096)
                  && SameBut(s.unused, s'.unused, {b, b + n, b + 4096}))
  {
    assert GoodAt(s.All(), b);
  }

  /** Where two chunks that adjoin each other start together, and how large they are. */
  function Joined(b: nat, size: nat, c: nat, size': nat): (nat, nat) {
    (if b < c then b else c, size + size')
  }

  predicate MayJoin(s: Chunks, base: nat, c: nat)
    requires base in s.used && c in s.unused
  {
    var (lower, total) := Joined(base, s.used[base], c, s.unused[c]);
    GoodChunk(lower, total)
  }

  /** A freed block and the unused chunk next to it become one whenever the rules allow that. */
  lemma FreedJoins(s: Chunks, base: nat, c: nat)
    requires s.Valid() && base in s.used && IsNeighbour(s.unused, base, s.used[base], Some(c))
    ensures c in s.unused
    ensures var s' := Freed(s, base, Some(c));
            var (lower, total) := Joined(base, s.used[base], c, s.unused[c]);
            && SameBut(s.unused, s'.unused, {base, c}) && s'.used == s.used - {base}
            && (MayJoin(s, base, c) ==> HasChunk(s'.unused, lower, total) && (base + c - lower) !in s'.unused)
            && (!MayJoin(s, base, c) ==> HasChunk(s'.unused, base, s.used[base]) && HasChunk(s'.unused, c, s.unused[c]))
  {
    assert GoodAt(s.All(), base) && GoodAt(s.All(), c);
    assert base in s.All() && c in s.All() && base != c && s.All()[base] == s.used[base];
  }

  /** A freed block without an unused chunk next to it becomes a chunk of its own. */
  lemma FreedAlone(s: Chunks, base: nat)
    requires s.Valid() && base in s.used
    ensures Freed(s, base, None) == Chunks(s.used - {base}, s.unused[base := s.used[base]])
  {
  }

  /**
   Freeing a block right after its allocation restores all chunks exactly if the rest had stayed one chunk, or
   if there was no rest and the block cannot be joined with its neighbour.
   */
  lemma AllocThenFree(s: Chunks, b: nat, n: nat, neighbour: Option<nat>)
    requires s.Valid() && b in s.unused && IsAlignedSize(n) && n <= s.unused[b]
    requires var s' := Allocated(s, b, n); b in s'.used && IsNeighbour(s'.unused, b, s'.used[b], neighbour)
    ensures Freed(Allocated(s, b, n), b, neighbour) == s <==>
            if s.unused[b] - n >= 16 then GoodChunk(b + n, s.unused[b] - n)
            else neighbour.None? || !MayJoin(Allocated(s, b, n), b, neighbour.value)
  {
    var s', rest := Allocated(s, b, n), s.unused[b] - n;
    AllocationKeepsChunks(s, b, n);
    assert GoodAt(s.All(), b) && b !in s.used;
    assert s'.used - {b} == s.used;
    if rest < 16 {
      RestoredWhole(s, b, neighbour);
    } else if GoodChunk(b + n, rest) {
      RestoredFromParts(s, b, n, neighbour);
    } else {
      PageStaysCut(s, b, n, neighbour);
    }
  }

  lemma RestoredWhole(s: Chunks, b: nat, neighbour: Option<nat>)
    requires s.Valid() && b in s.unused && b !in s.used
    requires IsNeighbour(s.unused - {b}, b, s.unused[b], neighbour)
    ensures var s' := Chunks(s.used[b := s.unused[b]], s.unused - {b});
            && (neighbour.Some? ==> neighbour.value in s'.unused)
            && (Freed(s', b, neighbour) == s <==> neighbour.None? || !MayJoin(s', b, neighbour.value))
  {
    var s' := Chunks(s.used[b := s.unused[b]], s.unused - {b});
    assert s'.used - {b} == s.used && s'.unused[b := s.unused[b]] == s.unused;
    HandOver(s, b);
    if neighbour.Some? {
      FreedJoins(s', b, neighbour.value);
      assert HasChunk(s.unused, b, s.unused[b]) && HasChunk(s.unused, neighbour.value, s.unused[neighbour.value]);
    }
  }

  lemma RestoredFromParts(s: Chunks, b: nat, n: nat, neighbour: Option<nat>)
    requires s.Valid() && b in s.unused && b !in s.used && IsAlignedSize(n)
    requires n + 16 <= s.unused[b] && GoodChunk(b + n, s.unused[b] - n)
    requires IsNeighbour(Allocated(s, b, n).unused, b, n, neighbour)
    ensures Freed(Allocated(s, b, n), b, neighbour) == s
  {
    var s' := Allocated(s, b, n);
    assert GoodAt(s.All(), b);
    assert Apart(s.All(), b, b + n);
    assert b + n !in s.unused && neighbour == Some(b + n);
    assert Freed(s', b, neighbour).unused == s.unused;
    assert s'.used - {b} == s.used;
  }

  lemma PageStaysCut(s: Chunks, b: nat, n: nat, neighbour: Option<nat>)
    requires s.Valid() && b in s.unused && b !in s.used && IsAlignedSize(n)
    requires n + 16 <= s.unused[b] && !GoodChunk(b + n, s.unused[b] - n)
    requires IsNeighbour(Allocated(s, b, n).unused, b, n, neighbour)
    ensures Freed(Allocated(s, b, n), b, neighbour) != s
  {
    var s' := Allocated(s, b, n);
    RestOfChunk(s, b, n);
    assert GoodAt(s.All(), b) && neighbour == Some(b + n);
    assert HasChunk(Freed(s', b, neighbour).unused, b, 4096);
  }

  /** Whether a block can grow to `size` without leaving a chunk behind it, or the rest can stay one. */
  predicate RestStays(s: Chunks, base: nat, size: nat)
    requires base in s.used && base + s.used[base] in s.unused
  {
    s.unused[base + s.used[base]] < 4096 && s.used[base] + s.unused[base + s.used[base]] - size >= 16
  }

  /** The size a block gets: the one asked for if the rest of the chunk behind can stay a chunk, or else all of it. */
  function GrownSize(s: Chunks, base: nat, size: nat): nat
    requires base in s.used && base + s.used[base] in s.unused
  {
    if RestStays(s, base, size) then size else s.used[base] + s.unused[base + s.used[base]]
  }

  /**
   Exactly when a block grows in place: the chunk behind it is unused and large enough, and the rules allow
   the size that it gets. Then nothing but that chunk changes.
   */
  lemma GrowsExactly(s: Chunks, base: nat, size: nat)
    requires s.Valid() && base in s.used && s.used[base] < size
    ensures var next := base + s.used[base];
            && (Grown(s, base, size).Some? <==>
                  && next in s.unused && s.used[base] + s.unused[next] >= size
                  && GoodChunk(base, GrownSize(s, base, size)))
            && (Grown(s, base, size).Some? ==>
                  var s' := Grown(s, base, size).value;
                  && s'.used == s.used[base := GrownSize(s, base, size)]
                  && (RestStays(s, base, size) ==>
                        HasChunk(s'.unused, base + size, next + s.unused[next] - (base + size))
                        && SameBut(s.unused, s'.unused, {next, base + size}))
                  && (!RestStays(s, base, size) ==> s'.unused == s.unused - {next}))
  {
    assert GoodAt(s.All(), base) && GoodAt(s.All(), base + s.used[base]);
  }
}
