/**
 The corruption engine (`src/corrupt.rs`): every so many frames it overwrites random bytes of the blocks
 in use. The contracts speak of the numbers that the random generator draws.
 */
module Corruption {
  import opened Wrappers
  import opened GuestMemory
  import opened ChunkMaps
  import opened GuestAllocator
  import opened GuestHeap
  import opened Generator

  type Blocks = seq<(nat, nat)>

  // ---------- Choosing a byte ----------

  /** The bytes of the first `n` blocks. */
  function Total(blocks: Blocks, n: nat): nat
    requires n <= |blocks|
  {
    if n == 0 then 0 else Total(blocks, n - 1) + blocks[n - 1].1
  }

  /** `pick` counts bytes from the first block on; this is byte `offset` of block `i`. */
  predicate IsTarget(blocks: Blocks, pick: nat, i: nat, offset: nat) {
    i < |blocks| && offset < blocks[i].1 && pick == Total(blocks, i) + offset
  }

  lemma {:induction false} TotalGrows(blocks: Blocks, m: nat, n: nat)
    requires m <= n <= |blocks|
    ensures Total(blocks, m) <= Total(blocks, n)
    decreases n
  {
    if m < n {
      TotalGrows(blocks, m, n - 1);
    }
  }

  /** Every number below the total picks a byte. */
  lemma {:induction false} PickHasTarget(blocks: Blocks, pick: nat, n: nat)
    requires n <= |blocks| && pick < Total(blocks, n)
    ensures exists i: nat, offset: nat :: IsTarget(blocks, pick, i, offset)
    decreases n
  {
    if pick < Total(blocks, n - 1) {
      PickHasTarget(blocks, pick, n - 1);
    } else {
      assert IsTarget(blocks, pick, n - 1, pick - Total(blocks, n - 1));
    }
  }

  /** It picks only one, and no other number picks it. */
  lemma TargetIsUnique(blocks: Blocks, pick: nat, i: nat, offset: nat, pick': nat, i': nat, offset': nat)
    requires IsTarget(blocks, pick, i, offset) && IsTarget(blocks, pick', i', offset')
    ensures pick == pick' <==> i == i' && offset == offset'
    ensures pick < Total(blocks, |blocks|)
  {
    TotalGrows(blocks, i + 1, |blocks|);
    if i < i' {
      TotalGrows(blocks, i + 1, i');
    } else if i' < i {
      TotalGrows(blocks, i' + 1, i);
    }
  }

  ghost predicate PicksAddress(blocks: Blocks, pick: nat, a: nat) {
    exists i: nat :: i < |blocks| && a >= blocks[i].0 && IsTarget(blocks, pick, i, a - blocks[i].0)
  }

  ghost predicate PicksSome(blocks: Blocks, pick: nat) {
    exists a: nat :: PicksAddress(blocks, pick, a)
  }

  ghost predicate IsPicked(blocks: Blocks, a: nat) {
    exists pick: nat :: PicksAddress(blocks, pick, a)
  }

  /**
   Picks and bytes in use correspond one to one: each number below the total picks an address in a block,
   each such address is picked, and different numbers pick different addresses.
   */
  lemma PicksAreTheBytesInUse(s: Chunks, blocks: Blocks)
    requires s.Valid() && ListsChunks(blocks, s.used)
    ensures forall pick: nat :: pick < Total(blocks, |blocks|) <==> PicksSome(blocks, pick)
    ensures forall a: nat :: Covered(s.used, a) <==> IsPicked(blocks, a)
    ensures forall p: nat, q: nat, a: nat, b: nat :: PicksAddress(blocks, p, a) && PicksAddress(blocks, q, b) ==>
              (p == q <==> a == b)
  {
    forall pick: nat ensures pick < Total(blocks, |blocks|) <==> PicksSome(blocks, pick) {
      PickInRange(blocks, pick);
    }
    forall a: nat ensures Covered(s.used, a) <==> IsPicked(blocks, a) {
      AddressPicked(s, blocks, a);
    }
    forall p: nat, q: nat, a: nat, b: nat | PicksAddress(blocks, p, a) && PicksAddress(blocks, q, b)
      ensures p == q <==> a == b
    {
      PicksDiffer(s, blocks, p, q, a, b);
    }
  }

  lemma PickInRange(blocks: Blocks, pick: nat)
    ensures pick < Total(blocks, |blocks|) <==> PicksSome(blocks, pick)
  {
    if pick < Total(blocks, |blocks|) {
      PickHasTarget(blocks, pick, |blocks|);
      var i: nat, offset: nat :| IsTarget(blocks, pick, i, offset);
      assert blocks[i].0 + offset - blocks[i].0 == offset;
      assert PicksAddress(blocks, pick, blocks[i].0 + offset);
    }
    if a: nat :| PicksAddress(blocks, pick, a) {
      var i: nat :| i < |blocks| && a >= blocks[i].0 && IsTarget(blocks, pick, i, a - blocks[i].0);
      TargetIsUnique(blocks, pick, i, a - blocks[i].0, pick, i, a - blocks[i].0);
    }
  }

  lemma AddressPicked(s: Chunks, blocks: Blocks, a: nat)
    requires ListsChunks(blocks, s.used)
    ensures Covered(s.used, a) <==> IsPicked(blocks, a)
  {
    if Covered(s.used, a) {
      var b :| Holds(s.used, b, a);
      BlockIsListed(s, blocks, b);
      var i :| 0 <= i < |blocks| && blocks[i] == (b, s.used[b]);
      ByteIsPicked(blocks, i, a);
    }
    if pick: nat :| PicksAddress(blocks, pick, a) {
      PickedIsHeld(s, blocks, pick, a);
    }
  }

  lemma BlockIsListed(s: Chunks, blocks: Blocks, b: nat)
    requires ListsChunks(blocks, s.used) && b in s.used
    ensures exists i :: 0 <= i < |blocks| && blocks[i] == (b, s.used[b])
  {
    assert Listed(blocks, b);
    var i :| 0 <= i < |blocks| && blocks[i].0 == b;
  }

  lemma ByteIsPicked(blocks: Blocks, i: nat, a: nat)
    requires i < |blocks| && blocks[i].0 <= a < blocks[i].0 + blocks[i].1
    ensures IsPicked(blocks, a)
  {
    assert IsTarget(blocks, Total(blocks, i) + (a - blocks[i].0), i, a - blocks[i].0);
    assert PicksAddress(blocks, Total(blocks, i) + (a - blocks[i].0), a);
  }

  lemma PickedIsHeld(s: Chunks, blocks: Blocks, pick: nat, a: nat)
    requires ListsChunks(blocks, s.used) && PicksAddress(blocks, pick, a)
    ensures Covered(s.used, a)
  {
    var i: nat :| i < |blocks| && a >= blocks[i].0 && IsTarget(blocks, pick, i, a - blocks[i].0);
    assert Holds(s.used, blocks[i].0, a);
  }

  lemma PicksDiffer(s: Chunks, blocks: Blocks, p: nat, q: nat, a: nat, b: nat)
    requires s.Valid() && ListsChunks(blocks, s.used) && PicksAddress(blocks, p, a) && PicksAddress(blocks, q, b)
    ensures p == q <==> a == b
  {
    var i: nat :| i < |blocks| && a >= blocks[i].0 && IsTarget(blocks, p, i, a - blocks[i].0);
    var j: nat :| j < |blocks| && b >= blocks[j].0 && IsTarget(blocks, q, j, b - blocks[j].0);
    TargetIsUnique(blocks, p, i, a - blocks[i].0, q, j, b - blocks[j].0);
    assert Apart(s.All(), blocks[i].0, blocks[j].0) && Apart(s.All(), blocks[j].0, blocks[i].0);
    assert i != j ==> blocks[i].0 != blocks[j].0;
  }

  // ---------- Ticks ----------

  /** An option of 0 counts as 1. */
  function AtLeastOne(n: nat): (r: nat)
    ensures r >= 1 && (n >= 1 ==> r == n) && (n == 0 ==> r == 1)
  {
    if n == 0 then 1 else n
  }

  /** The engine's counters: frames since the last burst, and bytes corrupted so far. */
  datatype Counters = Counters(frames: nat, total: nat)

  /** One enabled tick; a burst without memory in use changes no byte and counts none. */
  function Ticked(c: Counters, interval: nat, burst: nat, anyInUse: bool): Counters {
    if c.frames + 1 < AtLeastOne(interval) then Counters(c.frames + 1, c.total)
    else Counters(0, if anyInUse then c.total + AtLeastOne(burst) else c.total)
  }

  /** The counters of a new engine after the ticks. */
  function AfterTicks(interval: nat, burst: nat, anyInUse: seq<bool>): Counters {
    if anyInUse == [] then Counters(0, 0) else
      var n := |anyInUse| - 1;
      Ticked(AfterTicks(interval, burst, anyInUse[..n]), interval, burst, anyInUse[n])
  }

  /** How many of the ticks are burst ticks that find memory in use. */
  function Bursts(interval: nat, anyInUse: seq<bool>): nat {
    if anyInUse == [] then 0 else
      var n := |anyInUse| - 1;
      Bursts(interval, anyInUse[..n]) + if (n + 1) % AtLeastOne(interval) == 0 && anyInUse[n] then 1 else 0
  }

  /** Bursts come every `interval` ticks, and each corrupts the configured number of bytes. */
  lemma {:induction false} BurstsAreCounted(interval: nat, burst: nat, anyInUse: seq<bool>)
    ensures AfterTicks(interval, burst, anyInUse)
            == Counters(|anyInUse| % AtLeastOne(interval), AtLeastOne(burst) * Bursts(interval, anyInUse))
  {
    if anyInUse != [] {
      var n := |anyInUse| - 1;
      BurstsAreCounted(interval, burst, anyInUse[..n]);
      NextRemainder(n, AtLeastOne(interval));
      Distributes(AtLeastOne(burst), Bursts(interval, anyInUse[..n]));
    }
  }

  lemma Distributes(a: nat, b: nat)
    ensures a * (b + 1) == a * b + a
  {
  }

  lemma NextRemainder(n: nat, d: nat)
    requires d > 0
    ensures (n + 1) % d == if n % d + 1 < d then n % d + 1 else 0
    ensures (n + 1) / d == n / d + if n % d + 1 < d then 0 else 1
  {
    var q, r := n / d, n % d;
    if r + 1 < d {
      QuotientIs(n + 1, d, q, r + 1);
    } else {
      assert d * (q + 1) == d * q + d;
      QuotientIs(n + 1, d, q + 1, 0);
    }
  }

  lemma QuotientIs(n: nat, d: nat, q: nat, r: nat)
    requires d > 0 && n == d * q + r && r < d
    ensures n / d == q && n % d == r
  {
    var other := n / d;
    assert n == d * other + n % d;
    if q < other {
      ProductGrows(d, q + 1, other);
    } else if other < q {
      ProductGrows(d, other + 1, q);
    }
  }

  lemma {:induction false} ProductGrows(d: nat, a: nat, b: nat)
    requires a <= b
    ensures d * a <= d * b && d * a == if a == 0 then 0 else d * (a - 1) + d
    decreases b
  {
    if a < b {
      ProductGrows(d, a, b - 1);
    }
  }

  /** With memory always in use, the total is the burst size times the number of whole intervals. */
  lemma {:induction false} TotalWhileInUse(interval: nat, burst: nat, anyInUse: seq<bool>)
    requires forall i :: 0 <= i < |anyInUse| ==> anyInUse[i]
    ensures Bursts(interval, anyInUse) == |anyInUse| / AtLeastOne(interval)
    ensures AfterTicks(interval, burst, anyInUse).total == AtLeastOne(burst) * (|anyInUse| / AtLeastOne(interval))
  {
    BurstsAreCounted(interval, burst, anyInUse);
    if anyInUse != [] {
      var n := |anyInUse| - 1;
      TotalWhileInUse(interval, burst, anyInUse[..n]);
      NextRemainder(n, AtLeastOne(interval));
    } else {
      QuotientIs(0, AtLeastOne(interval), 0, 0);
    }
  }

  // ---------- The engine ----------

  ghost predicate InLiveBlock(s: Chunks, maxOffset: Option<nat>, a: nat) {
    exists b :: Holds(s.used, b, a) && (maxOffset.Some? && maxOffset.value > 0 ==> a - b < maxOffset.value)
  }

  /** Bytes differ only inside blocks in use, outside the null segment, and below the offset limit if there is one. */
  ghost predicate OnlyLiveBytesDiffer(s: Chunks, nullSegmentSize: nat, bytes: Bytes, bytes': Bytes,
                                      maxOffset: Option<nat>)
  {
    forall a: nat :: ByteAt(bytes', a) != ByteAt(bytes, a) ==> a >= nullSegmentSize && InLiveBlock(s, maxOffset, a)
  }

  /** The offset after the optional restriction to the start of each block. */
  function Limited(maxOffset: Option<nat>, offset: nat): (limited: nat)
    ensures limited <= offset && (maxOffset.Some? && maxOffset.value > 0 ==> limited < maxOffset.value)
  {
    if maxOffset.Some? && maxOffset.value > 0 then offset % maxOffset.value else offset
  }

  /** The address that is overwritten for a pick. */
  ghost function TargetAddress(blocks: Blocks, maxOffset: Option<nat>, pick: nat): nat
    requires pick < Total(blocks, |blocks|)
  {
    PickHasTarget(blocks, pick, |blocks|);
    var i: nat, offset: nat :| IsTarget(blocks, pick, i, offset);
    blocks[i].0 + Limited(maxOffset, offset)
  }

  function WithByte(bytes: Bytes, nullSegmentSize: nat, a: nat, value: byte): Bytes {
    if nullSegmentSize <= a < SPACE_END then bytes[a := value] else bytes
  }

  function ByteOf(random: nat): byte {
    random / 0x1_0000_0000 % 0x100
  }

  /** The value is the low byte of a number's upper 32 bits, so every byte can be written. */
  lemma ByteIsLowOfUpperHalf(top: nat, value: byte, low: nat)
    requires low < 0x1_0000_0000
    ensures ByteOf((0x100 * top + value) * 0x1_0000_0000 + low) == value
  {
    var upper := 0x100 * top + value;
    assert (upper * 0x1_0000_0000 + low) / 0x1_0000_0000 == upper;
  }

  type Write = (nat, byte)

  /** The byte that number `k` of the generator picks. */
  function PickAt(blocks: Blocks, random: nat -> nat, k: nat): nat
    requires Total(blocks, |blocks|) > 0
  {
    random(k) % Total(blocks, |blocks|)
  }

  /** The write that drawing number `k` for the pick and the next one for the value leads to. */
  ghost function WriteAt(blocks: Blocks, maxOffset: Option<nat>, random: nat -> nat, k: nat): Write
    requires Total(blocks, |blocks|) > 0
  {
    (TargetAddress(blocks, maxOffset, PickAt(blocks, random, k)), ByteOf(random(k + 1)))
  }

  ghost predicate IsWriteAt(write: Write, blocks: Blocks, maxOffset: Option<nat>, random: nat -> nat, k: nat)
    requires Total(blocks, |blocks|) > 0
  {
    write == WriteAt(blocks, maxOffset, random, k)
  }

  /** The writes of a burst, drawing from number `drawn` on. */
  ghost predicate AreWrites(writes: seq<Write>, blocks: Blocks, maxOffset: Option<nat>, random: nat -> nat, drawn: nat)
    requires Total(blocks, |blocks|) > 0
  {
    forall i :: 0 <= i < |writes| ==> IsWriteAt(writes[i], blocks, maxOffset, random, drawn + 2 * i)
  }

  function Applied(bytes: Bytes, nullSegmentSize: nat, writes: seq<Write>): Bytes {
    if writes == [] then bytes else
      var last := writes[|writes| - 1];
      WithByte(Applied(bytes, nullSegmentSize, writes[..|writes| - 1]), nullSegmentSize, last.0, last.1)
  }

  class Corruptor {
    const enabled: bool
    const intervalFrames: nat
    const bytesPerBurst: nat
    const maxOffset: Option<nat>
    const rng: Rng
    var framesSinceBurst: nat
    var totalCorrupted: nat

    constructor (enabled: bool, intervalFrames: nat, bytesPerBurst: nat, maxOffset: Option<nat>, seed: bv64)
      ensures rng.Valid() && fresh(rng) && rng.drawn == 0 && rng.seed == seed
      ensures framesSinceBurst == 0 && totalCorrupted == 0
      ensures this.enabled == enabled && this.intervalFrames == intervalFrames && this.bytesPerBurst == bytesPerBurst
      ensures this.maxOffset == maxOffset
    {
      this.enabled := enabled;
      this.intervalFrames := intervalFrames;
      this.bytesPerBurst := bytesPerBurst;
      this.maxOffset := maxOffset;
      rng := new Rng(seed);
      framesSinceBurst, totalCorrupted := 0, 0;
    }

    function State(): Counters
      reads this
    {
      Counters(framesSinceBurst, totalCorrupted)
    }

    /** `tick`: counts frames, and bursts when the interval is over. */
    method Tick(heap: Heap)
      requires rng.Valid() && heap.WellFormed()
      modifies this, rng, heap`bytes
      ensures rng.Valid() && heap.WellFormed() && (old(heap.Valid()) ==> heap.Valid())
      ensures !enabled ==> unchanged(this) && unchanged(rng) && heap.bytes == old(heap.bytes)
      ensures enabled ==>
                State() == Ticked(old(State()), intervalFrames, bytesPerBurst, heap.allocator.used.Keys != {})
      ensures OnlyLiveBytesDiffer(heap.allocator.State(), heap.nullSegmentSize, old(heap.bytes), heap.bytes, maxOffset)
      ensures old(framesSinceBurst) + 1 < AtLeastOne(intervalFrames) ==> heap.bytes == old(heap.bytes)
      ensures enabled && old(framesSinceBurst) + 1 >= AtLeastOne(intervalFrames) && heap.allocator.used.Keys != {} ==>
                IsBlast(heap.allocator.State(), heap.nullSegmentSize, old(heap.bytes), heap.bytes, maxOffset,
                        rng.random, old(rng.drawn), AtLeastOne(bytesPerBurst))
    {
      if !enabled {
        return;
      }
      var due := CountFrame();
      assert heap.bytes == old(heap.bytes) && heap.allocator.State() == old(heap.allocator.State());
      if !due {
        return;
      }
      Blast(heap);
    }

    /** Counts a frame, and tells whether the interval is over. */
    method CountFrame() returns (due: bool)
      modifies this`framesSinceBurst
      ensures due <==> old(framesSinceBurst) + 1 >= AtLeastOne(intervalFrames)
      ensures framesSinceBurst == if due then 0 else old(framesSinceBurst) + 1
    {
      framesSinceBurst := framesSinceBurst + 1;
      due := framesSinceBurst >= if intervalFrames == 0 then 1 else intervalFrames;
      if due {
        framesSinceBurst := 0;
      }
    }

    /** `blast`: every write lands in a block in use, and each counts. */
    method Blast(heap: Heap)
      requires rng.Valid() && heap.WellFormed()
      modifies rng, this`totalCorrupted, heap`bytes
      ensures rng.Valid() && heap.WellFormed() && (old(heap.Valid()) ==> heap.Valid())
      ensures totalCorrupted == old(totalCorrupted) + if heap.allocator.used.Keys != {}
              then AtLeastOne(bytesPerBurst) else 0
      ensures OnlyLiveBytesDiffer(heap.allocator.State(), heap.nullSegmentSize, old(heap.bytes), heap.bytes, maxOffset)
      ensures heap.allocator.used.Keys != {} ==>
                IsBlast(heap.allocator.State(), heap.nullSegmentSize, old(heap.bytes), heap.bytes, maxOffset,
                        rng.random, old(rng.drawn), AtLeastOne(bytesPerBurst))
    {
      var blocks := heap.allocator.LiveAllocations();
      if blocks == [] {
        return;
      }
      var total := 0;
      for n := 0 to |blocks|
        invariant total == Total(blocks, n)
      {
        total := total + blocks[n].1;
      }
      TotalIsPositive(heap.allocator.State(), blocks);
      var burst := if bytesPerBurst == 0 then 1 else bytesPerBurst;
      ghost var writes := CorruptMany(heap, blocks, total, burst);
      WritesAreLive(heap.allocator.State(), heap.nullSegmentSize, blocks, writes, maxOffset, rng.random,
                    old(rng.drawn));
      AppliedStaysLive(heap.allocator.State(), heap.nullSegmentSize, old(heap.bytes), writes, maxOffset);
      assert blocks[0].0 in heap.allocator.used;
    }

    /** The burst's loop (src/corrupt.rs:168-202). */
    method CorruptMany(heap: Heap, blocks: Blocks, total: nat, burst: nat) returns (ghost writes: seq<Write>)
      requires rng.Valid() && total == Total(blocks, |blocks|) > 0
      modifies rng, this`totalCorrupted, heap`bytes
      ensures rng.Valid() && totalCorrupted == old(totalCorrupted) + burst && |writes| == burst
      ensures AreWrites(writes, blocks, maxOffset, rng.random, old(rng.drawn))
      ensures heap.bytes == Applied(old(heap.bytes), heap.nullSegmentSize, writes)
    {
      var corrupted := 0;
      writes := [];
      for k := 0 to burst
        invariant rng.Valid() && rng.drawn == old(rng.drawn) + 2 * k
        invariant corrupted == k == |writes| && totalCorrupted == old(totalCorrupted)
        invariant AreWrites(writes, blocks, maxOffset, rng.random, old(rng.drawn))
        invariant heap.bytes == Applied(old(heap.bytes), heap.nullSegmentSize, writes)
      {
        var write := CorruptOne(heap, blocks, total);
        OneMoreWrite(writes, write, blocks, maxOffset, rng.random, old(rng.drawn));
        AppliedOneMore(old(heap.bytes), heap.nullSegmentSize, writes, write);
        writes := writes + [write];
        corrupted := corrupted + 1;
      }
      totalCorrupted := totalCorrupted + corrupted;
    }

    method CorruptOne(heap: Heap, blocks: Blocks, total: nat) returns (ghost write: Write)
      requires rng.Valid() && total == Total(blocks, |blocks|) > 0
      modifies rng, heap`bytes
      ensures rng.Valid() && rng.drawn == old(rng.drawn) + 2
      ensures write == WriteAt(blocks, maxOffset, rng.random, old(rng.drawn))
      ensures heap.bytes == WithByte(old(heap.bytes), heap.nullSegmentSize, write.0, write.1)
    {
      var pick := rng.Below(total);
      var base, offset, i := FindTarget(blocks, pick);
      TargetAddressIs(blocks, maxOffset, pick, i, offset);
      offset := Limited(maxOffset, offset);
      var value := rng.NextU32();
      write := (base + offset, value % 0x100);
      heap.CorruptByte(base + offset, value % 0x100);
    }

    /** The walk from the pick to its block (src/corrupt.rs:174-186); a pick below the total always has one. */
    method FindTarget(blocks: Blocks, pickBefore: nat) returns (base: nat, offset: nat, ghost i: nat)
      requires pickBefore < Total(blocks, |blocks|)
      ensures IsTarget(blocks, pickBefore, i, offset) && blocks[i].0 == base
    {
      var pick: nat, n: nat := pickBefore, 0;
      while pick >= blocks[n].1
        invariant 0 <= n < |blocks| && pickBefore == pick + Total(blocks, n)
        decreases |blocks| - n
      {
        pick := pick - blocks[n].1;
        assert Total(blocks, n + 1) == Total(blocks, n) + blocks[n].1;
        n := n + 1;
      }
      base, offset, i := blocks[n].0, pick, n;
    }
  }

  /** The bytes after a burst are those before with the burst's writes applied, in order. */
  ghost predicate IsBlast(s: Chunks, nullSegmentSize: nat, bytes: Bytes, bytes': Bytes, maxOffset: Option<nat>,
                          random: nat -> nat, drawn: nat, burst: nat)
  {
    exists blocks: Blocks, writes: seq<Write> :: (
      && ListsChunks(blocks, s.used) && Total(blocks, |blocks|) > 0 && |writes| == burst
      && AreWrites(writes, blocks, maxOffset, random, drawn)
      && bytes' == Applied(bytes, nullSegmentSize, writes))
  }

  /**
   Write `i` of a burst that starts at draw number `drawn`: of the two draws it takes, the first picks a byte of the
   blocks, counted through them in order, and the second gives the value. A positive limit wraps the offset.
   */
  lemma DrawsOfWrite(writes: seq<Write>, blocks: Blocks, maxOffset: Option<nat>, random: nat -> nat, drawn: nat, i: nat,
                     n: nat, offset: nat)
    requires Total(blocks, |blocks|) > 0 && AreWrites(writes, blocks, maxOffset, random, drawn) && i < |writes|
    requires IsTarget(blocks, random(drawn + 2 * i) % Total(blocks, |blocks|), n, offset)
    ensures writes[i].0 == blocks[n].0 + (if maxOffset.None? || maxOffset.value == 0 then offset
                                          else offset % maxOffset.value)
    ensures writes[i].1 == random(drawn + 2 * i + 1) / 0x1_0000_0000 % 0x100
  {
    assert IsWriteAt(writes[i], blocks, maxOffset, random, drawn + 2 * i);
    TargetAddressIs(blocks, maxOffset, random(drawn + 2 * i) % Total(blocks, |blocks|), n, offset);
  }

  lemma OneMoreWrite(writes: seq<Write>, write: Write, blocks: Blocks, maxOffset: Option<nat>, random: nat -> nat,
                     drawn: nat)
    requires Total(blocks, |blocks|) > 0 && AreWrites(writes, blocks, maxOffset, random, drawn)
    requires write == WriteAt(blocks, maxOffset, random, drawn + 2 * |writes|)
    ensures AreWrites(writes + [write], blocks, maxOffset, random, drawn)
  {
  }

  lemma AppliedOneMore(bytes: Bytes, nullSegmentSize: nat, writes: seq<Write>, write: Write)
    ensures Applied(bytes, nullSegmentSize, writes + [write])
            == WithByte(Applied(bytes, nullSegmentSize, writes), nullSegmentSize, write.0, write.1)
  {
    assert (writes + [write])[..|writes|] == writes;
  }

  ghost predicate LiveWrites(s: Chunks, maxOffset: Option<nat>, writes: seq<Write>) {
    forall i :: 0 <= i < |writes| ==> InLiveBlock(s, maxOffset, writes[i].0)
  }

  lemma WritesAreLive(s: Chunks, nullSegmentSize: nat, blocks: Blocks, writes: seq<Write>, maxOffset: Option<nat>,
                      random: nat -> nat, drawn: nat)
    requires s.Valid() && ListsChunks(blocks, s.used) && Total(blocks, |blocks|) > 0
    requires AreWrites(writes, blocks, maxOffset, random, drawn)
    ensures LiveWrites(s, maxOffset, writes)
  {
    forall n | 0 <= n < |writes| ensures InLiveBlock(s, maxOffset, writes[n].0) {
      assert IsWriteAt(writes[n], blocks, maxOffset, random, drawn + 2 * n);
      TargetIsLive(s, blocks, maxOffset, PickAt(blocks, random, drawn + 2 * n));
    }
  }

  lemma TargetIsLive(s: Chunks, blocks: Blocks, maxOffset: Option<nat>, pick: nat)
    requires ListsChunks(blocks, s.used) && pick < Total(blocks, |blocks|)
    ensures InLiveBlock(s, maxOffset, TargetAddress(blocks, maxOffset, pick))
  {
    PickHasTarget(blocks, pick, |blocks|);
    var i: nat, offset: nat :| IsTarget(blocks, pick, i, offset);
    TargetAddressIs(blocks, maxOffset, pick, i, offset);
    assert Holds(s.used, blocks[i].0, blocks[i].0 + Limited(maxOffset, offset));
  }

  /** Writes into blocks in use change nothing else, and so unused memory stays zero. */
  lemma {:induction false} AppliedStaysLive(s: Chunks, nullSegmentSize: nat, bytes: Bytes, writes: seq<Write>,
                                            maxOffset: Option<nat>)
    requires s.Valid() && LiveWrites(s, maxOffset, writes)
    ensures OnlyLiveBytesDiffer(s, nullSegmentSize, bytes, Applied(bytes, nullSegmentSize, writes), maxOffset)
    ensures UnusedIsZero(s, bytes) ==> UnusedIsZero(s, Applied(bytes, nullSegmentSize, writes))
    decreases |writes|
  {
    if writes != [] {
      AppliedStaysLive(s, nullSegmentSize, bytes, writes[..|writes| - 1], maxOffset);
    }
    var bytes' := Applied(bytes, nullSegmentSize, writes);
    forall a: nat | Covered(s.unused, a) ensures ByteAt(bytes', a) == ByteAt(bytes, a) {
      UsedOrUnused(s, a);
    }
  }

  lemma TargetAddressIs(blocks: Blocks, maxOffset: Option<nat>, pick: nat, i: nat, offset: nat)
    requires IsTarget(blocks, pick, i, offset)
    ensures pick < Total(blocks, |blocks|)
            && TargetAddress(blocks, maxOffset, pick) == blocks[i].0 + Limited(maxOffset, offset)
  {
    TargetIsUnique(blocks, pick, i, offset, pick, i, offset);
    PickHasTarget(blocks, pick, |blocks|);
    forall j: nat, other: nat | IsTarget(blocks, pick, j, other) ensures j == i && other == offset {
      TargetIsUnique(blocks, pick, i, offset, pick, j, other);
    }
  }

  lemma TotalIsPositive(s: Chunks, blocks: Blocks)
    requires s.Valid() && ListsChunks(blocks, s.used) && blocks != []
    ensures Total(blocks, |blocks|) > 0
  {
    assert GoodAt(s.All(), blocks[0].0);
    assert Total(blocks, 1) == blocks[0].1;
    TotalGrows(blocks, 1, |blocks|);
  }

  // ---------- Writes that are counted but change nothing ----------

  /** `corrupt_byte` writes there at all. */
  predicate ReachesMemory(nullSegmentSize: nat, a: nat) {
    nullSegmentSize <= a < SPACE_END
  }

  /** The null segment is listed first, so exactly the picks below its size fall into it, limited or not. */
  lemma LowPicksHitNullSegment(s: Chunks, nullSegmentSize: nat, blocks: Blocks, maxOffset: Option<nat>, pick: nat)
    requires s.Valid() && ListsChunks(blocks, s.used) && 0 in s.used && s.used[0] == nullSegmentSize
    requires pick < Total(blocks, |blocks|)
    ensures ReachesMemory(nullSegmentSize, TargetAddress(blocks, maxOffset, pick)) <==> pick >= nullSegmentSize
  {
    PickHasTarget(blocks, pick, |blocks|);
    var i: nat, offset: nat :| IsTarget(blocks, pick, i, offset);
    TargetAddressIs(blocks, maxOffset, pick, i, offset);
    NullSegmentIsFirst(s, blocks);
    assert GoodAt(s.All(), blocks[i].0) && Apart(s.All(), 0, blocks[i].0);
    if i > 0 {
      NullSegmentInTotal(blocks, i);
    }
  }

  lemma NullSegmentInTotal(blocks: Blocks, i: nat)
    requires 0 < i <= |blocks|
    ensures Total(blocks, i) >= blocks[0].1
  {
    assert Total(blocks, 1) == blocks[0].1;
    TotalGrows(blocks, 1, i);
  }

  lemma NullSegmentIsFirst(s: Chunks, blocks: Blocks)
    requires ListsChunks(blocks, s.used) && 0 in s.used
    ensures |blocks| > 0 && blocks[0] == (0, s.used[0])
    ensures forall i :: 0 < i < |blocks| ==> blocks[i].0 > 0
  {
    BlockIsListed(s, blocks, 0);
    var k :| 0 <= k < |blocks| && blocks[k] == (0, s.used[0]);
    forall i | 0 < i < |blocks| ensures blocks[i].0 > 0 {
      assert blocks[0].0 < blocks[i].0;
    }
  }

  /** The pick of write `i` of a burst lies past the null segment. */
  predicate PicksMemory(blocks: Blocks, random: nat -> nat, drawn: nat, i: nat, nullSegmentSize: nat)
    requires Total(blocks, |blocks|) > 0
  {
    PickAt(blocks, random, drawn + 2 * i) >= nullSegmentSize
  }

  predicate WriteReaches(writes: seq<Write>, i: nat, nullSegmentSize: nat) {
    i < |writes| && ReachesMemory(nullSegmentSize, writes[i].0)
  }

  /**
   Every write that a burst counts reaches memory exactly if none of its picks falls below the null
   segment's size.
   */
  lemma CountedWritesReachMemory(s: Chunks, nullSegmentSize: nat, blocks: Blocks, writes: seq<Write>,
                                 maxOffset: Option<nat>, random: nat -> nat, drawn: nat)
    requires s.Valid() && ListsChunks(blocks, s.used) && 0 in s.used && s.used[0] == nullSegmentSize
    requires Total(blocks, |blocks|) > 0 && AreWrites(writes, blocks, maxOffset, random, drawn)
    ensures (forall i: nat :: i < |writes| ==> WriteReaches(writes, i, nullSegmentSize)) <==>
            (forall i: nat :: i < |writes| ==> PicksMemory(blocks, random, drawn, i, nullSegmentSize))
  {
    forall i: nat | i < |writes|
      ensures WriteReaches(writes, i, nullSegmentSize) == PicksMemory(blocks, random, drawn, i, nullSegmentSize)
    {
      CountedWriteReachesMemory(s, nullSegmentSize, blocks, writes, maxOffset, random, drawn, i);
    }
  }

  lemma CountedWriteReachesMemory(s: Chunks, nullSegmentSize: nat, blocks: Blocks, writes: seq<Write>,
                                  maxOffset: Option<nat>, random: nat -> nat, drawn: nat, i: nat)
    requires s.Valid() && ListsChunks(blocks, s.used) && 0 in s.used && s.used[0] == nullSegmentSize
    requires Total(blocks, |blocks|) > 0 && AreWrites(writes, blocks, maxOffset, random, drawn) && i < |writes|
    ensures WriteReaches(writes, i, nullSegmentSize) == PicksMemory(blocks, random, drawn, i, nullSegmentSize)
  {
    assert IsWriteAt(writes[i], blocks, maxOffset, random, drawn + 2 * i);
    LowPicksHitNullSegment(s, nullSegmentSize, blocks, maxOffset, PickAt(blocks, random, drawn + 2 * i));
  }

  lemma {:induction false} LostWritesChangeNothing(bytes: Bytes, nullSegmentSize: nat, writes: seq<Write>)
    requires forall i: nat :: i < |writes| ==> !WriteReaches(writes, i, nullSegmentSize)
    ensures Applied(bytes, nullSegmentSize, writes) == bytes
    decreases |writes|
  {
    if writes != [] {
      var n := |writes| - 1;
      forall i: nat | i < n ensures !WriteReaches(writes[..n], i, nullSegmentSize) {
        assert !WriteReaches(writes, i, nullSegmentSize);
      }
      LostWritesChangeNothing(bytes, nullSegmentSize, writes[..n]);
      assert !WriteReaches(writes, n, nullSegmentSize);
    }
  }

  /**
   An input: this seed's first number is 0, which picks address 0. So the burst counts a byte, and
   nothing changes.
   */
  method BurstIntoNullSegment(heap: Heap) returns (corruptor: Corruptor)
    requires heap.WellFormed()
    modifies heap`bytes
    ensures heap.bytes == old(heap.bytes) && corruptor.totalCorrupted == 1
  {
    corruptor := new Corruptor(true, 1, 1, None, 0xFFFF_FFFF_FFFF_FFFE);
    corruptor.Tick(heap);
    FirstPickIsZero(heap.allocator.State(), heap.nullSegmentSize, old(heap.bytes), heap.bytes, corruptor.rng.random, 1);
  }

  lemma FirstPickIsZero(s: Chunks, nullSegmentSize: nat, bytes: Bytes, bytes': Bytes, random: nat -> nat, burst: nat)
    requires s.Valid() && 0 in s.used && s.used[0] == nullSegmentSize > 0
    requires Yields(0xFFFF_FFFF_FFFF_FFFE, random) && burst == 1
    requires IsBlast(s, nullSegmentSize, bytes, bytes', None, random, 0, burst)
    ensures bytes' == bytes
  {
    ZeroComesFirst(random);
    LowPicksChangeNothing(s, nullSegmentSize, bytes, bytes', random, burst);
  }

  lemma LowPicksChangeNothing(s: Chunks, nullSegmentSize: nat, bytes: Bytes, bytes': Bytes, random: nat -> nat,
                              burst: nat)
    requires s.Valid() && 0 in s.used && s.used[0] == nullSegmentSize > 0
    requires IsBlast(s, nullSegmentSize, bytes, bytes', None, random, 0, burst)
    requires forall i: nat :: i < burst ==> random(2 * i) == 0
    ensures bytes' == bytes
  {
    var blocks: Blocks, writes: seq<Write> :| (
      && ListsChunks(blocks, s.used) && Total(blocks, |blocks|) > 0 && |writes| == burst
      && AreWrites(writes, blocks, None, random, 0)
      && bytes' == Applied(bytes, nullSegmentSize, writes));
    forall i: nat | i < |writes| ensures !WriteReaches(writes, i, nullSegmentSize) {
      CountedWriteReachesMemory(s, nullSegmentSize, blocks, writes, None, random, 0, i);
      assert random(2 * i) == 0;
      ZeroRemainder(Total(blocks, |blocks|));
    }
    LostWritesChangeNothing(bytes, nullSegmentSize, writes);
  }

  lemma ZeroRemainder(n: nat)
    requires n > 0
    ensures 0 % n == 0
  {
  }
}
