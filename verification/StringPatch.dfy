/**
 The in-memory patch of `std::string::_S_construct` (`patch_string_s_construct_null`, src/dyld.rs:298-376):
 a Thumb branch found by its surroundings is made to lead to the code for empty strings. Branches are those
 of the Arm Architecture Reference Manual (ARM DDI 0406C), section A8.8.18, encodings T1 and T2.
 */
module StringPatch {
  import opened Wrappers
  import opened GuestMemory

  type halfword = h: int | 0 <= h < 0x1_0000

  const SCAN_HALFWORDS := 128
  const COMPARE_R0_R1 := 0x4288
  const COMPARE_R0_ZERO := 0x2800

  function ReadHalfword(m: Memory, a: nat): halfword {
    if a < m.nullSegmentSize then 0 else m.Byte(a) + 0x100 * (m.Byte(a + 1) as int)
  }

  function WriteHalfword(m: Memory, a: nat, h: halfword): Memory {
    if a < m.nullSegmentSize then m else m.(bytes := StoreBytes(m.bytes, a, [h % 0x100, h / 0x100]))
  }

  /** `bne`, encoding T1. */
  predicate IsBne(h: halfword) {
    h / 0x100 == 0xD1
  }

  /** `b`, encoding T2. */
  predicate IsBranch(h: halfword) {
    h / 0x800 == 0x1C
  }

  /** Where the branch at `a` leads: the 11-bit offset counts halfwords from `a + 4`, with sign. */
  function BranchTarget(a: nat, h: halfword): int {
    var imm11 := h % 0x800;
    a + 4 + 2 * (if imm11 < 0x400 then imm11 else imm11 - 0x800)
  }

  function EncodeBranch(a: nat, target: nat): halfword {
    0xE000 + (target - (a + 4)) / 2 % 0x800
  }

  /** The encoding reaches every even distance of -2048 to 2046 bytes, and no other. */
  lemma BranchReaches(a: nat, target: nat)
    ensures IsBranch(EncodeBranch(a, target))
    ensures BranchTarget(a, EncodeBranch(a, target)) == target <==>
            (target - (a + 4)) % 2 == 0 && -2048 <= target - (a + 4) <= 2046
  {
  }

  // ---------- What the patch looks for ----------

  function HalfwordAt(m: Memory, entry: nat, i: nat): halfword {
    ReadHalfword(m, entry + 2 * i)
  }

  /** Halfwords follow each other, low byte first; the null segment reads as zero and cannot be written. */
  lemma HalfwordsFollow(m: Memory, entry: nat, i: nat, h: halfword)
    ensures var a, low, high := entry + i + i, m.Byte(entry + i + i) as int, m.Byte(entry + i + i + 1) as int;
            && (m.nullSegmentSize <= a ==> HalfwordAt(m, entry, i) == 0x100 * high + low)
            && (a < m.nullSegmentSize ==> HalfwordAt(m, entry, i) == 0 && WriteHalfword(m, a, h) == m)
  {
  }

  /** What the searches look for, in numbers. */
  lemma PatternInNumbers(m: Memory, entry: nat, k: nat)
    ensures IsBne(HalfwordAt(m, entry, k)) <==> 0xD100 <= HalfwordAt(m, entry, k) <= 0xD1FF
    ensures IsBranch(HalfwordAt(m, entry, k)) <==> 0xE000 <= HalfwordAt(m, entry, k) <= 0xE7FF
    ensures IsSite(m, entry, k) <==>
            && ReadHalfword(m, entry + 2 * k) == 0x2800 && 0xD100 <= ReadHalfword(m, entry + 2 * k + 2) <= 0xD1FF
            && 0xE000 <= ReadHalfword(m, entry + 2 * k + 4) <= 0xE7FF
  {
    assert HalfwordAt(m, entry, k + 1) == ReadHalfword(m, entry + 2 * k + 2);
    assert HalfwordAt(m, entry, k + 2) == ReadHalfword(m, entry + 2 * k + 4);
  }

  /** Halfword `i` is the first comparison of r0 with r1, and `j` is the first `bne` after it. */
  ghost predicate EmptyBlockFollows(m: Memory, entry: nat, i: nat, j: nat) {
    && i < j < SCAN_HALFWORDS
    && HalfwordAt(m, entry, i) == COMPARE_R0_R1 && (forall k: nat :: k < i ==> HalfwordAt(m, entry, k) != COMPARE_R0_R1)
    && IsBne(HalfwordAt(m, entry, j)) && (forall k: nat :: i < k < j ==> !IsBne(HalfwordAt(m, entry, k)))
  }

  predicate IsSite(m: Memory, entry: nat, k: nat) {
    && HalfwordAt(m, entry, k) == COMPARE_R0_ZERO
    && IsBne(HalfwordAt(m, entry, k + 1)) && IsBranch(HalfwordAt(m, entry, k + 2))
  }

  ghost predicate FirstSite(m: Memory, entry: nat, k: nat) {
    k < SCAN_HALFWORDS && IsSite(m, entry, k) && forall l: nat :: l < k ==> !IsSite(m, entry, l)
  }

  /** There is a block for empty strings, after `bne` number `j`, and a branch to redirect, at site `k`. */
  ghost predicate MayPatch(m: Memory, entry: nat, j: nat, k: nat) {
    (exists i: nat :: EmptyBlockFollows(m, entry, i, j)) && FirstSite(m, entry, k)
  }

  /** The memory after the patch. */
  ghost predicate Patched(m: Memory, entry: nat, m': Memory) {
    if exists j: nat, k: nat :: MayPatch(m, entry, j, k)
    then exists j: nat, k: nat :: MayPatch(m, entry, j, k) && m' == Redirected(m, entry, j, k)
    else m' == m
  }

  function Redirected(m: Memory, entry: nat, j: nat, k: nat): Memory {
    WriteHalfword(m, entry + 2 * k + 4, EncodeBranch(entry + 2 * k + 4, entry + 2 * j + 2))
  }

  // ---------- The patch ----------

  /** The first loop: the number of the `bne` that ends the start of the function, or none. */
  method FindEmptyBlock(m: Memory, entry: nat) returns (found: Option<nat>)
    ensures found.Some? ==> exists i: nat :: EmptyBlockFollows(m, entry, i, found.value)
    ensures found.None? ==> forall i: nat, j: nat :: !EmptyBlockFollows(m, entry, i, j)
  {
    var seen := false;
    ghost var first := 0;
    for n := 0 to SCAN_HALFWORDS
      invariant !seen ==> forall k: nat :: k < n ==> HalfwordAt(m, entry, k) != COMPARE_R0_R1
      invariant seen ==> 0 <= first < n && HalfwordAt(m, entry, first) == COMPARE_R0_R1
      invariant seen ==> forall k: nat :: k < first ==> HalfwordAt(m, entry, k) != COMPARE_R0_R1
      invariant seen ==> forall k: nat :: first < k < n ==> !IsBne(HalfwordAt(m, entry, k))
    {
      var h := ReadHalfword(m, entry + 2 * n);
      assert h == HalfwordAt(m, entry, n);
      if !seen {
        if h == COMPARE_R0_R1 {
          seen := true;
          first := n;
        }
        continue;
      }
      if IsBne(h) {
        assert EmptyBlockFollows(m, entry, first, n);
        return Some(n);
      }
    }
    found := None;
  }

  method FindSite(m: Memory, entry: nat) returns (found: Option<nat>)
    ensures found.Some? ==> FirstSite(m, entry, found.value)
    ensures found.None? ==> forall k: nat :: !FirstSite(m, entry, k)
  {
    for n := 0 to SCAN_HALFWORDS
      invariant forall k: nat :: k < n ==> !IsSite(m, entry, k)
    {
      if ReadHalfword(m, entry + 2 * n) != COMPARE_R0_ZERO {
        continue;
      }
      var bne := ReadHalfword(m, entry + 2 * n + 2);
      var b := ReadHalfword(m, entry + 2 * n + 4);
      assert bne == HalfwordAt(m, entry, n + 1) && b == HalfwordAt(m, entry, n + 2);
      if !IsBne(bne) || !IsBranch(b) {
        continue;
      }
      return Some(n);
    }
    found := None;
  }

  /** `symbol` is the exported address of the function, with the Thumb bit. */
  method PatchStringSConstructNull(mem: Mem, symbol: Option<nat>)
    modifies mem
    ensures symbol.None? || symbol.value % 2 == 0 ==> mem.contents == old(mem.contents)
    ensures symbol.Some? && symbol.value % 2 == 1 ==> Patched(old(mem.contents), symbol.value - 1, mem.contents)
  {
    if symbol.None? || symbol.value % 2 == 0 {
      return;
    }
    var entry := symbol.value - 1;
    var bne := FindEmptyBlock(mem.contents, entry);
    if bne.None? {
      return;
    }
    var emptyBlock := entry + 2 * bne.value + 2;
    var site := FindSite(mem.contents, entry);
    if site.None? {
      return;
    }
    var branch := entry + 2 * site.value + 4;
    assert MayPatch(mem.contents, entry, bne.value, site.value);
    mem.contents := WriteHalfword(mem.contents, branch, EncodeBranch(branch, emptyBlock));
  }

  // ---------- What it does ----------

  lemma OnePatch(m: Memory, entry: nat, j: nat, k: nat, j': nat, k': nat)
    requires MayPatch(m, entry, j, k) && MayPatch(m, entry, j', k')
    ensures j == j' && k == k'
  {
    var i: nat :| EmptyBlockFollows(m, entry, i, j);
    var i': nat :| EmptyBlockFollows(m, entry, i', j');
    assert i == i';
  }

  lemma HalfwordWritten(m: Memory, a: nat, h: halfword, b: nat)
    requires m.nullSegmentSize <= a
    ensures var m' := WriteHalfword(m, a, h);
            && ReadHalfword(m', a) == h
            && (DisjointRanges(a, 2, b, 2) ==> ReadHalfword(m', b) == ReadHalfword(m, b))
            && (!(a <= b < a + 2) ==> m'.Byte(b) == m.Byte(b))
  {
    StoredBytes(m.bytes, a, [h % 0x100, h / 0x100]);
  }

  /** Nothing but the halfword at `a` differs. */
  ghost predicate SameOutside(m: Memory, m': Memory, a: nat) {
    m'.nullSegmentSize == m.nullSegmentSize && forall b: nat :: !(a <= b < a + 2) ==> m'.Byte(b) == m.Byte(b)
  }

  /** What site `k` holds is now a branch to the code after `bne` number `j`, and nothing else has changed. */
  ghost predicate OneBranchRedirected(m: Memory, m': Memory, entry: nat, j: nat, k: nat) {
    var branch := entry + 2 * (k + 2);
    && IsBranch(ReadHalfword(m', branch)) && BranchTarget(branch, ReadHalfword(m', branch)) == entry + 2 * (j + 1)
    && SameOutside(m, m', branch)
  }

  /**
   The patch changes nothing, or exactly one halfword: a branch that follows `cmp r0, #0` and `bne`, which is
   still a branch and now leads to the code after the `bne` that follows the first `cmp r0, r1`.
   */
  lemma PatchRedirectsOneBranch(m: Memory, entry: nat, m': Memory)
    requires Patched(m, entry, m')
    ensures m' == m || exists j: nat, k: nat :: MayPatch(m, entry, j, k) && OneBranchRedirected(m, m', entry, j, k)
  {
    if m' != m {
      var j: nat, k: nat :| MayPatch(m, entry, j, k) && m' == Redirected(m, entry, j, k);
      RedirectionWorks(m, entry, j, k);
    }
  }

  lemma RedirectionWorks(m: Memory, entry: nat, j: nat, k: nat)
    requires j < SCAN_HALFWORDS && k < SCAN_HALFWORDS && IsSite(m, entry, k)
    ensures OneBranchRedirected(m, Redirected(m, entry, j, k), entry, j, k)
  {
    var a, target := entry + 2 * (k + 2), entry + 2 * (j + 1);
    BranchReaches(a, target);
    assert HalfwordAt(m, entry, k + 2) == ReadHalfword(m, a);
    forall b: nat ensures !(a <= b < a + 2) ==> Redirected(m, entry, j, k).Byte(b) == m.Byte(b) {
      HalfwordWritten(m, a, EncodeBranch(a, target), b);
    }
    HalfwordWritten(m, a, EncodeBranch(a, target), 0);
  }

  /** The two memories look alike to both searches at halfword `n`. */
  predicate Alike(m: Memory, m': Memory, entry: nat, n: nat) {
    HalfwordAt(m', entry, n) == HalfwordAt(m, entry, n)
        || (IsBranch(HalfwordAt(m', entry, n)) && IsBranch(HalfwordAt(m, entry, n)))
  }

  lemma RedirectedLooksAlike(m: Memory, entry: nat, j: nat, k: nat, n: nat)
    requires IsSite(m, entry, k)
    ensures Alike(m, Redirected(m, entry, j, k), entry, n)
  {
    var a, target := entry + 2 * k + 4, entry + 2 * j + 2;
    BranchReaches(a, target);
    assert HalfwordAt(m, entry, k + 2) == ReadHalfword(m, a);
    HalfwordWritten(m, a, EncodeBranch(a, target), entry + 2 * n);
  }

  lemma SearchesAgree(m: Memory, m': Memory, entry: nat)
    requires forall n: nat :: Alike(m, m', entry, n)
    ensures forall i: nat, j: nat :: EmptyBlockFollows(m', entry, i, j) <==> EmptyBlockFollows(m, entry, i, j)
    ensures forall k: nat :: FirstSite(m', entry, k) <==> FirstSite(m, entry, k)
  {
    forall n: nat
      ensures HalfwordAt(m', entry, n) == COMPARE_R0_R1 <==> HalfwordAt(m, entry, n) == COMPARE_R0_R1
      ensures IsBne(HalfwordAt(m', entry, n)) <==> IsBne(HalfwordAt(m, entry, n))
      ensures IsSite(m', entry, n) <==> IsSite(m, entry, n)
    {
      assert Alike(m, m', entry, n) && Alike(m, m', entry, n + 1) && Alike(m, m', entry, n + 2);
    }
  }

  lemma WrittenTwice(m: Memory, a: nat, h: halfword)
    ensures WriteHalfword(WriteHalfword(m, a, h), a, h) == WriteHalfword(m, a, h)
  {
    var s := [h % 0x100, h / 0x100];
    StoredBytes(m.bytes, a, s);
    StoredBytes(StoreBytes(m.bytes, a, s), a, s);
    assert StoreBytes(StoreBytes(m.bytes, a, s), a, s) == StoreBytes(m.bytes, a, s);
  }

  lemma PatchedAgain(m: Memory, entry: nat, j: nat, k: nat, m': Memory)
    requires MayPatch(m, entry, j, k) && Redirected(m, entry, j, k) == m && Patched(m, entry, m')
    ensures m' == m
  {
    var j': nat, k': nat :| MayPatch(m, entry, j', k') && m' == Redirected(m, entry, j', k');
    OnePatch(m, entry, j, k, j', k');
  }

  lemma PatchStaysPossible(m: Memory, entry: nat, j: nat, k: nat)
    requires MayPatch(m, entry, j, k)
    ensures MayPatch(Redirected(m, entry, j, k), entry, j, k)
  {
    forall n: nat ensures Alike(m, Redirected(m, entry, j, k), entry, n) {
      RedirectedLooksAlike(m, entry, j, k, n);
    }
    SearchesAgree(m, Redirected(m, entry, j, k), entry);
  }

  lemma RedirectedTwice(m: Memory, entry: nat, j: nat, k: nat)
    ensures Redirected(Redirected(m, entry, j, k), entry, j, k) == Redirected(m, entry, j, k)
  {
    WrittenTwice(m, entry + 2 * k + 4, EncodeBranch(entry + 2 * k + 4, entry + 2 * j + 2));
  }

  lemma PatchedAfterRedirect(m: Memory, entry: nat, j: nat, k: nat, m2: Memory)
    requires MayPatch(m, entry, j, k) && Patched(Redirected(m, entry, j, k), entry, m2)
    ensures m2 == Redirected(m, entry, j, k)
  {
    PatchStaysPossible(m, entry, j, k);
    RedirectedTwice(m, entry, j, k);
    PatchedAgain(Redirected(m, entry, j, k), entry, j, k, m2);
  }

  /** To both searches a redirected branch is any branch, so patching once more changes nothing. */
  lemma PatchIsIdempotent(m: Memory, entry: nat, m1: Memory, m2: Memory)
    requires Patched(m, entry, m1) && Patched(m1, entry, m2)
    ensures m2 == m1
  {
    if exists j: nat, k: nat :: MayPatch(m, entry, j, k) {
      var j: nat, k: nat :| MayPatch(m, entry, j, k) && m1 == Redirected(m, entry, j, k);
      PatchedAfterRedirect(m, entry, j, k, m2);
    }
  }
}
