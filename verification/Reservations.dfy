/**
 Reserving the segments of a binary (`src/mem/allocator.rs:313-350`): the reserved range is cut out of an
 unused chunk, and what is left on either side is dropped if it is too small to keep.
 */
module Reservations {
  import opened Wrappers
  import opened ChunkMaps

  predicate Encloses(unused: ChunkMap, c: nat, base: nat, size: nat) {
    c in unused && c <= base && base + size <= c + unused[c]
  }

  /** The unused chunks without `c`, and with a left-over range if that is large enough. */
  function WithRest(unused: ChunkMap, from: nat, size: nat): ChunkMap {
    if size >= MIN_CHUNK_SIZE then unused[from := size] else unused
  }

  /** Nothing if the left-over range behind breaks the rule that pages are aligned, which panics. */
  function Reserved(s: Chunks, c: nat, base: nat, size: nat): Option<Chunks>
    requires Encloses(s.unused, c, base, size)
  {
    var end, after := base + size, c + s.unused[c] - (base + size);
    if after >= PAGE_SIZE && end % PAGE_SIZE != 0 then None else
      Some(Chunks(s.used[base := size], WithRest(WithRest(s.unused - {c}, c, base - c), end, after)))
  }

  /** The bytes on either side of the reserved range that no chunk holds any more. */
  function Dropped(s: Chunks, c: nat, base: nat, size: nat): set<nat>
    requires Encloses(s.unused, c, base, size)
  {
    var end := base + size;
    Sliver(c, base) + Sliver(end, c + s.unused[c])
  }

  /** The addresses between, if they are too few for a chunk. */
  function Sliver(from: nat, to: nat): set<nat> {
    if from <= to < from + MIN_CHUNK_SIZE then Range(from, to - from) else {}
  }

  lemma InSliver(from: nat, to: nat, a: nat)
    ensures a in Sliver(from, to) <==> from <= a < to < from + MIN_CHUNK_SIZE
  {
  }

  function Range(from: nat, n: nat): (r: set<nat>)
    ensures |r| == n && forall a :: a in r <==> from <= a < from + n
  {
    if n == 0 then {} else Range(from, n - 1) + {from + n - 1}
  }

  lemma DroppedIsSmall(s: Chunks, c: nat, base: nat, size: nat)
    requires Encloses(s.unused, c, base, size)
    ensures |Dropped(s, c, base, size)| <= 2 * (MIN_CHUNK_SIZE - 1)
  {
    var left, right := Sliver(c, base), Sliver(base + size, c + s.unused[c]);
    assert |left + right| <= |left| + |right|;
  }

  /** The reserved chunk and the left-over ranges lie within the chunk they come from. */
  lemma ReserveIsDisjoint(s: Chunks, c: nat, base: nat, size: nat)
    requires s.Valid() && Encloses(s.unused, c, base, size) && GoodChunk(base, size)
    requires Reserved(s, c, base, size).Some?
    ensures Reserved(s, c, base, size).value.Valid()
  {
    var s' := Reserved(s, c, base, size).value;
    assert GoodAt(s.All(), c);
    forall d ensures GoodAt(s'.All(), d) && !(d in s'.used && d in s'.unused) {
      assert GoodAt(s.All(), d) && Apart(s.All(), c, d) && Apart(s.All(), d, c);
    }
    forall d, e ensures Apart(s'.All(), d, e) {
      assert Apart(s.All(), d, e) && Apart(s.All(), c, d) && Apart(s.All(), d, c);
      assert Apart(s.All(), c, e) && Apart(s.All(), e, c);
    }
  }

  /** What the chunks are afterwards: the others, the reserved one, and the left-over ranges. */
  lemma ReservedLayout(s: Chunks, c: nat, base: nat, size: nat)
    requires s.Valid() && Encloses(s.unused, c, base, size) && size > 0 && Reserved(s, c, base, size).Some?
    ensures var all, all', end := s.All(), Reserved(s, c, base, size).value.All(), base + size;
            && all[c] == s.unused[c]
            && base in all' && all'[base] == size
            && (base - c >= MIN_CHUNK_SIZE ==> c in all' && all'[c] == base - c)
            && (c + all[c] - end >= MIN_CHUNK_SIZE ==> end in all' && all'[end] == c + all[c] - end)
            && (forall d :: d in all && d != c ==> d in all' && all'[d] == all[d])
            && (forall d :: d in all' ==> d == base || (d == c && all'[d] == base - c)
                                          || (d == end && all'[d] == c + all[c] - end)
                                          || (d in all && all'[d] == all[d]))
  {
    assert Apart(s.All(), c, base) && Apart(s.All(), c, base + size);
    forall d | d in s.All() && d != c ensures d < c || c + s.unused[c] <= d {
      assert Apart(s.All(), c, d);
    }
  }

  lemma KeptCover(s: Chunks, c: nat, base: nat, size: nat, a: nat, d: nat)
    requires s.Valid() && Encloses(s.unused, c, base, size) && size > 0 && Reserved(s, c, base, size).Some?
    requires Holds(s.All(), d, a) && a !in Dropped(s, c, base, size)
    ensures Covered(Reserved(s, c, base, size).value.All(), a)
  {
    var all', end := Reserved(s, c, base, size).value.All(), base + size;
    ReservedLayout(s, c, base, size);
    var d' := if d != c then d else if a < base then c else if a < end then base else end;
    assert Holds(all', d', a);
  }

  lemma NothingNewCovered(s: Chunks, c: nat, base: nat, size: nat, a: nat, d: nat)
    requires s.Valid() && Encloses(s.unused, c, base, size) && size > 0 && Reserved(s, c, base, size).Some?
    requires Holds(Reserved(s, c, base, size).value.All(), d, a)
    ensures Covered(s.All(), a)
  {
    ReservedLayout(s, c, base, size);
    assert Holds(s.All(), if c <= a < c + s.unused[c] then c else d, a);
  }

  lemma DroppedIsUncovered(s: Chunks, c: nat, base: nat, size: nat, a: nat, d: nat)
    requires s.Valid() && Encloses(s.unused, c, base, size) && size > 0 && Reserved(s, c, base, size).Some?
    requires Holds(Reserved(s, c, base, size).value.All(), d, a)
    ensures a !in Dropped(s, c, base, size)
  {
    ReservedLayout(s, c, base, size);
    InSliver(c, base, a);
    InSliver(base + size, c + s.unused[c], a);
    if d < c || d >= c + s.unused[c] {
      assert Apart(s.All(), d, c);
    } else {
      assert Apart(s.All(), c, d);
    }
  }

  /** Exactly the dropped bytes belong to no chunk any more. */
  lemma ReserveCovers(s: Chunks, c: nat, base: nat, size: nat, a: nat)
    requires s.Valid() && Encloses(s.unused, c, base, size) && size > 0 && Reserved(s, c, base, size).Some?
    ensures Covered(Reserved(s, c, base, size).value.All(), a) <==>
            Covered(s.All(), a) && a !in Dropped(s, c, base, size)
    ensures a in Dropped(s, c, base, size) ==> Covered(s.All(), a)
  {
    if Covered(s.All(), a) && a !in Dropped(s, c, base, size) {
      var d: nat :| Holds(s.All(), d, a);
      KeptCover(s, c, base, size, a, d);
    }
    if Covered(Reserved(s, c, base, size).value.All(), a) {
      var d: nat :| Holds(Reserved(s, c, base, size).value.All(), d, a);
      NothingNewCovered(s, c, base, size, a, d);
      DroppedIsUncovered(s, c, base, size, a, d);
    }
    if a in Dropped(s, c, base, size) {
      assert Holds(s.All(), c, a);
    }
  }

  // ---------- Runs ----------

  ghost predicate ReserveStep(s: Chunks, s': Chunks) {
    exists c, base, size :: Encloses(s.unused, c, base, size) && GoodChunk(base, size)
                            && Reserved(s, c, base, size) == Some(s')
  }

  /** The states an allocator passes through, reservations included. */
  ghost predicate IsHistory(states: seq<Chunks>) {
    states != [] && forall i :: 0 <= i < |states| - 1 ==>
      Step(states[i], states[i + 1]) || ReserveStep(states[i], states[i + 1])
  }

  /** How many of the first `n` steps are reservations and nothing else. */
  ghost function ReserveSteps(states: seq<Chunks>, n: nat): nat
    requires n < |states|
  {
    if n == 0 then 0 else
      ReserveSteps(states, n - 1) + if Step(states[n - 1], states[n]) then 0 else 1
  }

  /** Every address is lost or belongs to exactly one chunk. */
  ghost predicate Accounts(s: Chunks, lost: set<nat>) {
    s.Valid() && forall a: nat :: (a < SPACE_END <==> Covered(s.All(), a) || a in lost)
                                  && !(Covered(s.All(), a) && a in lost)
  }

  lemma StepAccounts(s: Chunks, s': Chunks, lost: set<nat>)
    requires Accounts(s, lost) && Step(s, s')
    ensures Accounts(s', lost)
  {
    StepKeepsCover(s, s');
    forall a: nat ensures Covered(s'.All(), a) == Covered(s.All(), a) {
    }
  }

  lemma ReserveAccounts(s: Chunks, s': Chunks, lost: set<nat>) returns (lost': set<nat>)
    requires Accounts(s, lost) && ReserveStep(s, s')
    ensures Accounts(s', lost') && |lost'| <= |lost| + 2 * (MIN_CHUNK_SIZE - 1)
  {
    var c: nat, base: nat, size: nat :| Encloses(s.unused, c, base, size) && GoodChunk(base, size)
                         && Reserved(s, c, base, size) == Some(s');
    var dropped := Dropped(s, c, base, size);
    DroppedIsSmall(s, c, base, size);
    ReserveIsDisjoint(s, c, base, size);
    lost' := lost + dropped;
    assert |lost'| <= |lost| + |dropped|;
    forall a: nat ensures (a < SPACE_END <==> Covered(s'.All(), a) || a in lost')
                          && !(Covered(s'.All(), a) && a in lost') {
      ReserveCovers(s, c, base, size, a);
    }
  }

  /**
   No history gives a byte out twice, and the only bytes it loses are at most 15 on either side of each
   reservation.
   */
  lemma {:induction false} HistoriesAccount(states: seq<Chunks>, nullSegmentSize: nat, n: nat) returns (lost: set<nat>)
    requires PAGE_SIZE <= nullSegmentSize < STACK_LOW_END && nullSegmentSize % PAGE_SIZE == 0
    requires IsHistory(states) && states[0] == Initial(nullSegmentSize) && n < |states|
    ensures Accounts(states[n], lost) && |lost| <= 2 * (MIN_CHUNK_SIZE - 1) * ReserveSteps(states, n)
  {
    if n == 0 {
      InitialPartitions(nullSegmentSize);
      lost := {};
    } else {
      lost := HistoriesAccount(states, nullSegmentSize, n - 1);
      assert Step(states[n - 1], states[n - 1 + 1]) || ReserveStep(states[n - 1], states[n - 1 + 1]);
      if Step(states[n - 1], states[n]) {
        StepAccounts(states[n - 1], states[n], lost);
      } else {
        lost := ReserveAccounts(states[n - 1], states[n], lost);
      }
    }
  }
}
