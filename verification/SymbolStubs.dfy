/**
 Rewriting a binary's symbol stubs into traps and, at the first call, back into the original code
 with a re-pointed symbol pointer (`setup_lazy_linking` and `link_by_restoring_stub`, `src/dyld.rs`).
 */
module SymbolStubs {
  import opened BitFields
  import opened GuestMemory
  import opened ArmCode

  const SVC_LAZY_LINK := 0
  const SVC_THREAD_EXIT := 1
  const SVC_RETURN_TO_HOST := 2
  const SVC_LINKED_FUNCTIONS_BASE := 3
  const SVC_LAZY_LINK_RET_FLAG := 0x80_0000

  const SYMBOL_STUB1_INSTRUCTIONS: seq<word> := [0xE59F_F000]
  const SYMBOL_STUB_INSTRUCTIONS: seq<word> := [0xE59F_C000, 0xE59C_F000]
  const PIC_SYMBOL_STUB_INSTRUCTIONS: seq<word> := [0xE59F_C004, 0xE08F_C00C, 0xE59C_F000]

  /** A `__symbol_stub` section; `symbols` are its indirect symbols, entry by entry. */
  datatype StubSection = StubSection(addr: nat, size: nat, entrySize: nat)

  predicate Supported(entrySize: nat) {
    entrySize == 4 || entrySize == 12 || entrySize == 16
  }

  /** The section lies in mapped memory and holds whole entries. */
  ghost predicate ValidSection(m: Memory, s: StubSection) {
    && Supported(s.entrySize) && s.size % s.entrySize == 0
    && m.nullSegmentSize <= s.addr && s.addr + s.size <= ADDRESS_SPACE
  }

  /** The address of entry `i`, `s.addr + i * s.entrySize` (`StubAddressIsProduct`). */
  function StubAddress(s: StubSection, i: nat): nat {
    if i == 0 then s.addr else StubAddress(s, i - 1) + s.entrySize
  }

  lemma {:induction false} StubAddressIsProduct(s: StubSection, i: nat)
    ensures StubAddress(s, i) == s.addr + i * s.entrySize
  {
    if i > 0 {
      StubAddressIsProduct(s, i - 1);
      assert i * s.entrySize == (i - 1) * s.entrySize + s.entrySize;
    }
  }

  function ExpectedInstructions(entrySize: nat): seq<word>
    requires Supported(entrySize)
  {
    if entrySize == 4 then [] else if entrySize == 12 then SYMBOL_STUB_INSTRUCTIONS else PIC_SYMBOL_STUB_INSTRUCTIONS
  }

  // ---------- setup_lazy_linking ----------

  function WriteTrapStub(m: Memory, a: nat, entrySize: nat): Memory {
    if entrySize == 4 then m.Write(a, EncodeSvc(SVC_LAZY_LINK_RET_FLAG)) else
      var m1 := m.Write(a, EncodeSvc(SVC_LAZY_LINK)).Write(a + 4, RETURN_WORD);
      if entrySize == 16 then m1.Write(a + 8, TRAP_WORD) else m1
  }

  ghost function RewriteStub(m: Memory, a: nat, entrySize: nat): Memory
    requires Supported(entrySize)
  {
    if HoldsWords(m, a, ExpectedInstructions(entrySize)) then WriteTrapStub(m, a, entrySize) else m
  }

  /** The memory once the first `n` stubs have been visited. */
  ghost function SetUpStubs(m: Memory, s: StubSection, n: nat): Memory
    requires Supported(s.entrySize)
  {
    if n == 0 then m else RewriteStub(SetUpStubs(m, s, n - 1), StubAddress(s, n - 1), s.entrySize)
  }

  method MatchesPattern(mem: Mem, a: nat, pattern: seq<word>) returns (matches: bool)
    ensures matches == HoldsWords(mem.contents, a, pattern)
  {
    for j := 0 to |pattern|
      invariant HoldsWords(mem.contents, a, pattern[..j])
    {
      if WordAt(mem.contents, a, j) != pattern[j] {
        return false;
      }
    }
    return true;
  }

  /** The loop over the stubs of one section (src/dyld.rs:738-781). */
  method SetUpLazyLinking(mem: Mem, s: StubSection)
    requires Supported(s.entrySize) ==> s.size % s.entrySize == 0
    modifies mem
    ensures mem.contents == if Supported(s.entrySize)
                            then SetUpStubs(old(mem.contents), s, s.size / s.entrySize) else old(mem.contents)
  {
    if !Supported(s.entrySize) {
      return;
    }
    for i := 0 to s.size / s.entrySize
      invariant mem.contents == SetUpStubs(old(mem.contents), s, i)
    {
      var a := StubAddress(s, i);
      var matches := MatchesPattern(mem, a, ExpectedInstructions(s.entrySize));
      if matches {
        if s.entrySize == 4 {
          mem.Write(a, EncodeSvc(SVC_LAZY_LINK_RET_FLAG));
        } else {
          mem.Write(a, EncodeSvc(SVC_LAZY_LINK));
          mem.Write(a + 4, RETURN_WORD);
        }
        if s.entrySize == 16 {
          mem.Write(a + 8, TRAP_WORD);
        }
      }
    }
  }

  lemma {:induction false} StubsAreApart(s: StubSection, i: nat, j: nat)
    requires i < j
    ensures s.addr <= StubAddress(s, i) && StubAddress(s, i) + s.entrySize <= StubAddress(s, j)
  {
    if i < j - 1 {
      StubsAreApart(s, i, j - 1);
    } else if i > 0 {
      StubsAreApart(s, 0, i);
    }
  }

  /** Rewriting a stub only touches that stub. */
  lemma TrapStubFrame(m: Memory, a: nat, entrySize: nat)
    requires Supported(entrySize)
    ensures WriteTrapStub(m, a, entrySize).nullSegmentSize == m.nullSegmentSize
    ensures forall b: nat :: !(a <= b < a + entrySize) ==> WriteTrapStub(m, a, entrySize).Byte(b) == m.Byte(b)
  {
    ByteAfterWrite(m, a, EncodeSvc(LazyLinkSvc(entrySize)));
    if entrySize != 4 {
      var m1 := m.Write(a, EncodeSvc(SVC_LAZY_LINK));
      ByteAfterWrite(m1, a + 4, RETURN_WORD);
      ByteAfterWrite(m1.Write(a + 4, RETURN_WORD), a + 8, TRAP_WORD);
    }
  }

  lemma {:induction false} SetUpFrame(m: Memory, s: StubSection, n: nat)
    requires Supported(s.entrySize)
    ensures SetUpStubs(m, s, n).nullSegmentSize == m.nullSegmentSize
    ensures forall b: nat :: !(s.addr <= b < StubAddress(s, n)) ==> SetUpStubs(m, s, n).Byte(b) == m.Byte(b)
  {
    if n > 0 {
      SetUpFrame(m, s, n - 1);
      RewriteFrame(SetUpStubs(m, s, n - 1), StubAddress(s, n - 1), s.entrySize);
      StubsAreApart(s, n - 1, n);
    }
  }

  lemma SamePattern(m: Memory, m': Memory, a: nat, size: nat, words: seq<word>)
    requires SameBytes(m, m', a, size) && 4 * |words| <= size
    ensures HoldsWords(m, a, words) == HoldsWords(m', a, words)
  {
    forall j | 0 <= j < |words| ensures WordAt(m, a, j) == WordAt(m', a, j) {
      SameWord(m, m', a, size, a + 4 * j);
    }
  }

  /** Each stub ends up exactly as if it alone had been rewritten. */
  lemma {:induction false} SetUpEntry(m: Memory, s: StubSection, n: nat, i: nat)
    requires Supported(s.entrySize) && i < n
    ensures var a := StubAddress(s, i);
            SameBytes(SetUpStubs(m, s, n), RewriteStub(m, a, s.entrySize), a, s.entrySize)
    decreases n
  {
    var a, prior, b := StubAddress(s, i), SetUpStubs(m, s, n - 1), StubAddress(s, n - 1);
    if i < n - 1 {
      SetUpEntry(m, s, n - 1, i);
      StubsAreApart(s, i, n - 1);
      EarlierBytesKept(prior, b, s.entrySize, a);
      SameBytesChain(SetUpStubs(m, s, n), prior, RewriteStub(m, a, s.entrySize), a, s.entrySize);
    } else {
      LaterBytesKept(m, s, n - 1);
      SameRewrite(prior, m, a, s.entrySize);
    }
  }

  lemma EarlierBytesKept(m: Memory, b: nat, entrySize: nat, a: nat)
    requires Supported(entrySize) && a + entrySize <= b
    ensures SameBytes(RewriteStub(m, b, entrySize), m, a, entrySize)
  {
    RewriteFrame(m, b, entrySize);
  }

  lemma LaterBytesKept(m: Memory, s: StubSection, n: nat)
    requires Supported(s.entrySize)
    ensures SameBytes(SetUpStubs(m, s, n), m, StubAddress(s, n), s.entrySize)
  {
    SetUpFrame(m, s, n);
  }

  lemma SameBytesChain(m: Memory, m': Memory, m'': Memory, a: nat, size: nat)
    requires SameBytes(m, m', a, size) && SameBytes(m', m'', a, size)
    ensures SameBytes(m, m'', a, size)
  {
  }

  lemma RewriteFrame(m: Memory, a: nat, entrySize: nat)
    requires Supported(entrySize)
    ensures RewriteStub(m, a, entrySize).nullSegmentSize == m.nullSegmentSize
    ensures forall b: nat :: !(a <= b < a + entrySize) ==> RewriteStub(m, a, entrySize).Byte(b) == m.Byte(b)
  {
    TrapStubFrame(m, a, entrySize);
  }

  lemma SameRewrite(m: Memory, m': Memory, a: nat, entrySize: nat)
    requires Supported(entrySize) && SameBytes(m, m', a, entrySize)
    ensures SameBytes(RewriteStub(m, a, entrySize), RewriteStub(m', a, entrySize), a, entrySize)
  {
    SamePattern(m, m', a, entrySize, ExpectedInstructions(entrySize));
    SameTrapStub(m, m', a, entrySize);
  }

  lemma SameTrapStub(m: Memory, m': Memory, a: nat, entrySize: nat)
    requires Supported(entrySize) && SameBytes(m, m', a, entrySize)
    ensures SameBytes(WriteTrapStub(m, a, entrySize), WriteTrapStub(m', a, entrySize), a, entrySize)
  {
    SameWrite(m, m', a, entrySize, a, EncodeSvc(LazyLinkSvc(entrySize)));
    if entrySize != 4 {
      var m1, m1' := m.Write(a, EncodeSvc(SVC_LAZY_LINK)), m'.Write(a, EncodeSvc(SVC_LAZY_LINK));
      SameWrite(m1, m1', a, entrySize, a + 4, RETURN_WORD);
      SameWrite(m1.Write(a + 4, RETURN_WORD), m1'.Write(a + 4, RETURN_WORD), a, entrySize, a + 8, TRAP_WORD);
    }
  }

  lemma SameWrite(m: Memory, m': Memory, a: nat, size: nat, b: nat, v: word)
    requires SameBytes(m, m', a, size)
    ensures SameBytes(m.Write(b, v), m'.Write(b, v), a, size)
  {
    ByteAfterWrite(m, b, v);
    ByteAfterWrite(m', b, v);
  }

  // ---------- The stub as a trap ----------

  /** The stub traps with `svc` and, if there is room, returns to LR after the trap. */
  ghost predicate IsTrapStub(m: Memory, a: nat, entrySize: nat, svc: nat)
    requires svc < 0x100_0000
  {
    && m.nullSegmentSize <= a
    && m.Read(a) == EncodeSvc(svc)
    && (entrySize != 4 ==> m.Read(a + 4) == RETURN_WORD)
  }

  function LazyLinkSvc(entrySize: nat): nat {
    if entrySize == 4 then SVC_LAZY_LINK_RET_FLAG else SVC_LAZY_LINK
  }

  lemma TrapStubWords(m: Memory, a: nat, entrySize: nat)
    requires Supported(entrySize) && m.nullSegmentSize <= a
    ensures IsTrapStub(WriteTrapStub(m, a, entrySize), a, entrySize, LazyLinkSvc(entrySize))
    ensures entrySize >= 12 ==> WriteTrapStub(m, a, entrySize).Read(a + entrySize - 4) == m.Read(a + entrySize - 4)
    ensures entrySize == 16 ==> WriteTrapStub(m, a, entrySize).Read(a + 8) == TRAP_WORD
  {
    var trap := EncodeSvc(LazyLinkSvc(entrySize));
    var m1 := m.Write(a, trap);
    ByteAfterWrite(m, a, trap);
    WordWritten(m, a, trap);
    if entrySize != 4 {
      var m2 := m1.Write(a + 4, RETURN_WORD);
      ByteAfterWrite(m1, a + 4, RETURN_WORD);
      WordWritten(m1, a + 4, RETURN_WORD);
      OtherWordKept(m1, a + 4, RETURN_WORD, a);
      OtherWordKept(m, a, trap, a + entrySize - 4);
      OtherWordKept(m1, a + 4, RETURN_WORD, a + entrySize - 4);
      OtherWordKept(m2, a + 8, TRAP_WORD, a);
      OtherWordKept(m2, a + 8, TRAP_WORD, a + 4);
      if entrySize == 16 {
        OtherWordKept(m2, a + 8, TRAP_WORD, a + 12);
        WordWritten(m2, a + 8, TRAP_WORD);
      }
    }
  }

  /** The pattern an unlinked stub has; 4-byte stubs are not checked. */
  predicate HasStubCode(m: Memory, a: nat, entrySize: nat) {
    && (entrySize == 12 ==> m.Read(a) == 0xE59F_C000 && m.Read(a + 4) == 0xE59C_F000)
    && (entrySize == 16 ==>
          m.Read(a) == 0xE59F_C004 && m.Read(a + 4) == 0xE08F_C00C && m.Read(a + 8) == 0xE59C_F000)
  }

  /** The trap that replaces it; the stub's last word stays if it has more than one. */
  predicate HasTrapCode(m: Memory, m': Memory, a: nat, entrySize: nat) {
    && (entrySize == 4 ==> m'.Read(a) == 0xEF80_0000)
    && (entrySize == 12 ==>
          m'.Read(a) == 0xEF00_0000 && m'.Read(a + 4) == 0xE12F_FF1E && m'.Read(a + 8) == m.Read(a + 8))
    && (entrySize == 16 ==>
          m'.Read(a) == 0xEF00_0000 && m'.Read(a + 4) == 0xE12F_FF1E && m'.Read(a + 8) == 0xE7FF_DEFE
          && m'.Read(a + 12) == m.Read(a + 12))
  }

  lemma StubCodeIsExpected(m: Memory, a: nat, entrySize: nat)
    requires Supported(entrySize)
    ensures HoldsWords(m, a, ExpectedInstructions(entrySize)) <==> HasStubCode(m, a, entrySize)
  {
    var words := ExpectedInstructions(entrySize);
    assert m.Read(a) == WordAt(m, a, 0) && m.Read(a + 4) == WordAt(m, a, 1) && m.Read(a + 8) == WordAt(m, a, 2);
  }

  lemma SameTrapCode(m: Memory, m': Memory, m'': Memory, a: nat, entrySize: nat)
    requires Supported(entrySize) && SameBytes(m', m'', a, entrySize) && HasTrapCode(m, m', a, entrySize)
    ensures HasTrapCode(m, m'', a, entrySize)
  {
    forall b | a <= b && b + 4 <= a + entrySize ensures m''.Read(b) == m'.Read(b) {
      SameWord(m', m'', a, entrySize, b);
    }
  }

  ghost predicate IsReplaced(m: Memory, m': Memory, a: nat, entrySize: nat) {
    if HasStubCode(m, a, entrySize) then HasTrapCode(m, m', a, entrySize) else SameBytes(m, m', a, entrySize)
  }

  lemma StubIsReplaced(m: Memory, m': Memory, a: nat, entrySize: nat)
    requires Supported(entrySize) && m.nullSegmentSize <= a
    requires SameBytes(m', RewriteStub(m, a, entrySize), a, entrySize)
    ensures IsReplaced(m, m', a, entrySize)
  {
    StubCodeIsExpected(m, a, entrySize);
    if HasStubCode(m, a, entrySize) {
      TrapStubWords(m, a, entrySize);
      SameTrapCode(m, WriteTrapStub(m, a, entrySize), m', a, entrySize);
    }
  }

  /** Set-up replaces exactly the stubs that have the pattern, word by word, and keeps every other one as it is. */
  lemma StubsWithCodeAreReplaced(m: Memory, s: StubSection, n: nat, i: nat)
    requires Supported(s.entrySize) && m.nullSegmentSize <= StubAddress(s, i) && i < n
    ensures IsReplaced(m, SetUpStubs(m, s, n), StubAddress(s, i), s.entrySize)
  {
    SetUpEntry(m, s, n, i);
    StubIsReplaced(m, SetUpStubs(m, s, n), StubAddress(s, i), s.entrySize);
  }

  lemma TrapStubTraps(m: Memory, a: nat, entrySize: nat, svc: nat, regs: Registers, n: nat)
    requires n >= 3
    requires svc < 0x100_0000 && IsTrapStub(m, a, entrySize, svc)
    ensures Execute(m, a, regs, n) == Trap(svc, a)
    ensures entrySize != 4 ==> Execute(m, a + 4, regs, n) == Jump(regs[LR])
  {
    SvcRoundTrip(svc, m.Read(a));
  }

  // ---------- link_by_restoring_stub ----------

  function OriginalInstructions(entrySize: nat): seq<word> {
    if entrySize == 4 then SYMBOL_STUB1_INSTRUCTIONS
    else if entrySize == 16 then PIC_SYMBOL_STUB_INSTRUCTIONS
    else SYMBOL_STUB_INSTRUCTIONS
  }

  function ToWord(n: nat): word {
    n % ADDRESS_SPACE
  }

  function RestoreStub(m: Memory, a: nat, entrySize: nat, picOffset: word): Memory {
    if entrySize == 4 then m.Write(a, ToWord(BitOr(SYMBOL_STUB1_INSTRUCTIONS[0], picOffset)))
    else StoreWords(m, a, OriginalInstructions(entrySize))
  }

  /** Where the restored stub's symbol pointer lives, as the source computes it. */
  function SymbolPointer(m: Memory, a: nat, entrySize: nat): nat {
    if entrySize == 12 then m.Read(a + 8)
    else if entrySize == 4 then (a + m.Read(a) % 0x1000 + 8) % ADDRESS_SPACE
    else (a + m.Read(a + 4 * |OriginalInstructions(entrySize)|) + 12) % ADDRESS_SPACE
  }

  function LinkedSlot(m: Memory, a: nat, entrySize: nat, picOffset: word): nat {
    SymbolPointer(RestoreStub(m, a, entrySize, picOffset), a, entrySize)
  }

  function LinkByRestoring(m: Memory, target: word, a: nat, entrySize: nat, picOffset: word): Memory {
    RestoreStub(m, a, entrySize, picOffset).Write(LinkedSlot(m, a, entrySize, picOffset), target)
  }

  method LinkByRestoringStub(mem: Mem, target: word, svcPc: nat, entrySize: nat, picOffset: word) returns (slot: nat)
    modifies mem
    ensures mem.contents == LinkByRestoring(old(mem.contents), target, svcPc, entrySize, picOffset)
    ensures slot == LinkedSlot(old(mem.contents), svcPc, entrySize, picOffset)
  {
    var instructions := OriginalInstructions(entrySize);
    if entrySize == 4 {
      mem.Write(svcPc, ToWord(BitOr(instructions[0], picOffset)));
    } else {
      for i := 0 to |instructions|
        invariant mem.contents == StoreWords(old(mem.contents), svcPc, instructions[..i])
      {
        assert instructions[..i + 1][..i] == instructions[..i];
        mem.Write(svcPc + 4 * i, instructions[i]);
      }
      assert instructions[..|instructions|] == instructions;
    }
    slot := SymbolPointer(mem.contents, svcPc, entrySize);
    mem.Write(slot, target);
  }

  /** The stub holds its original code and its symbol pointer holds `target`. */
  ghost predicate IsLinkedStub(m: Memory, a: nat, entrySize: nat, slot: nat, target: word) {
    && m.nullSegmentSize <= a
    && Supported(entrySize)
    && (entrySize == 4 ==> m.Read(a) / 0x1000 == SYMBOL_STUB1_INSTRUCTIONS[0] / 0x1000)
    && (entrySize != 4 ==> HoldsWords(m, a, OriginalInstructions(entrySize)))
    && slot == SymbolPointer(m, a, entrySize)
    && m.Read(slot) == target
  }

  /** Executing a linked stub jumps to its target. */
  lemma LinkedStubJumps(m: Memory, a: nat, entrySize: nat, slot: nat, target: word, regs: Registers, n: nat)
    requires n >= 3
    requires IsLinkedStub(m, a, entrySize, slot, target) && a + entrySize <= ADDRESS_SPACE
    ensures Execute(m, a, regs, n) == Jump(target)
  {
    if entrySize == 4 {
      var w := m.Read(a);
      assert Decode(w) == LoadLiteral(PC, w % 0x1000);
    } else if entrySize == 12 {
      TwelveByteStubJumps(m, a, slot, target, regs, n);
    } else {
      SixteenByteStubJumps(m, a, slot, target, regs, n);
    }
  }

  lemma TwelveByteStubJumps(m: Memory, a: nat, slot: nat, target: word, regs: Registers, n: nat)
    requires n >= 3
    requires IsLinkedStub(m, a, 12, slot, target) && a + 12 <= ADDRESS_SPACE
    ensures Execute(m, a, regs, n) == Jump(target)
  {
    assert WordAt(m, a, 0) == 0xE59F_C000 && WordAt(m, a, 1) == 0xE59C_F000;
    assert Decode(0xE59F_C000) == LoadLiteral(IP, 0);
    assert Decode(0xE59C_F000) == LoadImmediate(PC, IP, 0);
    assert Execute(m, a + 4, regs[IP := slot], n - 1) == Jump(target);
  }

  lemma SixteenByteStubJumps(m: Memory, a: nat, slot: nat, target: word, regs: Registers, n: nat)
    requires n >= 3
    requires IsLinkedStub(m, a, 16, slot, target) && a + 16 <= ADDRESS_SPACE
    ensures Execute(m, a, regs, n) == Jump(target)
  {
    SixteenByteStubCode(m, a, slot, target);
    OffsetLoaded(m, a, regs, n);
    PicStubTail(m, a, slot, target, regs[IP := m.Read(a + 12)], n - 1);
  }

  lemma SixteenByteStubCode(m: Memory, a: nat, slot: nat, target: word)
    requires IsLinkedStub(m, a, 16, slot, target)
    ensures m.Read(a) == 0xE59F_C004 && m.Read(a + 4) == 0xE08F_C00C && m.Read(a + 8) == 0xE59C_F000
    ensures slot == (m.Read(a + 12) + a + 12) % ADDRESS_SPACE && m.Read(slot) == target
  {
    assert WordAt(m, a, 0) == 0xE59F_C004 && WordAt(m, a, 1) == 0xE08F_C00C && WordAt(m, a, 2) == 0xE59C_F000;
  }

  lemma OffsetLoaded(m: Memory, a: nat, regs: Registers, n: nat)
    requires n > 0 && m.Read(a) == 0xE59F_C004 && a + 16 <= ADDRESS_SPACE
    ensures Execute(m, a, regs, n) == Execute(m, a + 4, regs[IP := m.Read(a + 12)], n - 1)
  {
    assert Decode(0xE59F_C004) == LoadLiteral(IP, 4);
    LiteralLoaded(m, a, regs, n, IP, 4);
  }

  lemma LiteralLoaded(m: Memory, pc: nat, regs: Registers, n: nat, rt: nat, offset: nat)
    requires n > 0 && rt < PC && Decode(m.Read(pc)) == LoadLiteral(rt, offset)
    ensures Execute(m, pc, regs, n) == Execute(m, pc + 4, regs[rt := m.Read((pc + 8 + offset) % ADDRESS_SPACE)], n - 1)
  {
  }

  /** The last two instructions of a 16-byte stub, with the offset already in `ip`. */
  lemma PicStubTail(m: Memory, a: nat, slot: nat, target: word, regs: Registers, n: nat)
    requires n >= 2 && m.Read(a + 4) == 0xE08F_C00C && m.Read(a + 8) == 0xE59C_F000
    requires slot == (regs[IP] + a + 12) % ADDRESS_SPACE && m.Read(slot) == target
    ensures Execute(m, a + 4, regs, n) == Jump(target)
  {
    var added: Registers := regs[IP := (Operand(regs, PC, a + 4) + regs[IP]) % ADDRESS_SPACE];
    assert added[IP] == slot;
    assert Decode(0xE08F_C00C) == AddRegister(IP, PC, IP);
    assert Execute(m, a + 4, regs, n) == Execute(m, a + 8, added, n - 1);
    assert Decode(0xE59C_F000) == LoadImmediate(PC, IP, 0);
  }

  /** The slot can be re-pointed: it is mapped and is not part of the stub's own code. */
  ghost predicate UsableSlot(m: Memory, slot: nat, a: nat, entrySize: nat) {
    m.nullSegmentSize <= slot && DisjointRanges(slot, 4, a, entrySize)
  }

  /** The upper 20 bits of a 4-byte stub's instruction, `LDR pc, [pc, #0]`. */
  const STUB1_OPCODE := 0xE59FF

  /** Or-ing in the offset leaves the instruction what it is: every bit above the 12-bit field is set already. */
  ghost predicate KeepsOpcode(entrySize: nat, picOffset: word) {
    entrySize == 4 ==> BitOr(STUB1_OPCODE, picOffset / 0x1000) == STUB1_OPCODE
  }

  /** The or of the source, field by field: the low 12 bits hold the offset modulo 0x1000. */
  lemma RestoredWord(picOffset: word)
    ensures ToWord(BitOr(SYMBOL_STUB1_INSTRUCTIONS[0], picOffset)) ==
            0x1000 * BitOr(STUB1_OPCODE, picOffset / 0x1000) + picOffset % 0x1000
  {
    OpcodeOr(STUB1_OPCODE, picOffset, picOffset / 0x1000, picOffset % 0x1000);
  }

  lemma OpcodeOr(opcode: nat, picOffset: word, page: nat, low: nat)
    requires opcode < 0x10_0000 && page < 0x10_0000 && low < 0x1000 && picOffset == 0x1000 * page + low
    ensures BitOr(0x1000 * opcode, picOffset) == 0x1000 * BitOr(opcode, page) + low < ADDRESS_SPACE
  {
    PowersUsed();
    BitOrHighField(page, low, opcode, 12);
    BitOrSymmetric(picOffset, 0x1000 * opcode);
    BitOrSymmetric(page, opcode);
    BitOrBound(opcode, page, 20);
  }

  lemma RestoredWords(m: Memory, a: nat, entrySize: nat, picOffset: word)
    requires Supported(entrySize) && m.nullSegmentSize <= a
    ensures var r := RestoreStub(m, a, entrySize, picOffset);
            && r.nullSegmentSize == m.nullSegmentSize
            && (entrySize == 4 ==> r.Read(a) == 0x1000 * BitOr(STUB1_OPCODE, picOffset / 0x1000) + picOffset % 0x1000)
            && (entrySize != 4 ==> HoldsWords(r, a, OriginalInstructions(entrySize)))
            && (entrySize != 4 ==> r.Read(a + entrySize - 4) == m.Read(a + entrySize - 4))
            && forall b: nat :: !(a <= b < a + entrySize) ==> r.Byte(b) == m.Byte(b)
  {
    if entrySize == 4 {
      var restored := ToWord(BitOr(SYMBOL_STUB1_INSTRUCTIONS[0], picOffset));
      RestoredWord(picOffset);
      ByteAfterWrite(m, a, restored);
      WordWritten(m, a, restored);
    } else {
      var words := OriginalInstructions(entrySize);
      StoredWords(m, a, words);
      SameWord(StoreWords(m, a, words), m, a + entrySize - 4, 4, a + entrySize - 4);
    }
  }

  /** The slot, in terms of the stub before it is restored. */
  lemma SlotValue(m: Memory, a: nat, entrySize: nat, picOffset: word)
    requires Supported(entrySize) && m.nullSegmentSize <= a
    ensures LinkedSlot(m, a, entrySize, picOffset) ==
            if entrySize == 4 then (a + picOffset % 0x1000 + 8) % ADDRESS_SPACE
            else if entrySize == 12 then m.Read(a + 8)
            else (a + m.Read(a + 12) + 12) % ADDRESS_SPACE
  {
    var r := RestoreStub(m, a, entrySize, picOffset);
    RestoredWords(m, a, entrySize, picOffset);
    if entrySize == 4 {
      PointerFromWord(r, a, BitOr(STUB1_OPCODE, picOffset / 0x1000), picOffset % 0x1000);
    } else {
      PointerFromLiteral(r, a, entrySize);
    }
  }

  lemma PointerFromWord(r: Memory, a: nat, opcode: nat, low: nat)
    requires low < 0x1000 && r.Read(a) == 0x1000 * opcode + low
    ensures SymbolPointer(r, a, 4) == (a + low + 8) % ADDRESS_SPACE
  {
    LowField(opcode, low);
  }

  lemma PointerFromLiteral(r: Memory, a: nat, entrySize: nat)
    requires entrySize == 12 || entrySize == 16
    ensures SymbolPointer(r, a, entrySize) ==
            if entrySize == 12 then r.Read(a + 8) else (a + r.Read(a + 12) + 12) % ADDRESS_SPACE
  {
  }

  lemma LowField(high: nat, low: nat)
    requires low < 0x1000
    ensures (0x1000 * high + low) % 0x1000 == low && (0x1000 * high + low) / 0x1000 == high
  {
  }

  /** Linking by restoring makes the stub a linked stub, and only writes the stub and its slot. */
  lemma LinkingRestores(m: Memory, target: word, a: nat, entrySize: nat, picOffset: word)
    requires Supported(entrySize) && m.nullSegmentSize <= a && KeepsOpcode(entrySize, picOffset)
    requires UsableSlot(m, LinkedSlot(m, a, entrySize, picOffset), a, entrySize)
    ensures var slot := LinkedSlot(m, a, entrySize, picOffset);
            IsLinkedStub(LinkByRestoring(m, target, a, entrySize, picOffset), a, entrySize, slot, target)
  {
    var slot := LinkedSlot(m, a, entrySize, picOffset);
    var r := RestoreStub(m, a, entrySize, picOffset);
    RestoredWords(m, a, entrySize, picOffset);
    WordWritten(r, slot, target);
    forall b | a <= b && b + 4 <= a + entrySize ensures r.Write(slot, target).Read(b) == r.Read(b) {
      OtherWordKept(r, slot, target, b);
    }
    if entrySize != 4 {
      var words := OriginalInstructions(entrySize);
      forall j | 0 <= j < |words| ensures WordAt(r.Write(slot, target), a, j) == words[j] {
        assert WordAt(r, a, j) == words[j];
      }
    }
  }

  lemma LinkingFrame(m: Memory, target: word, a: nat, entrySize: nat, picOffset: word)
    requires Supported(entrySize) && m.nullSegmentSize <= a
    ensures var slot := LinkedSlot(m, a, entrySize, picOffset);
            var m' := LinkByRestoring(m, target, a, entrySize, picOffset);
            && m'.nullSegmentSize == m.nullSegmentSize
            && forall b: nat :: !(a <= b < a + entrySize) && !(slot <= b < slot + 4) ==> m'.Byte(b) == m.Byte(b)
  {
    RestoredWords(m, a, entrySize, picOffset);
    ByteAfterWrite(RestoreStub(m, a, entrySize, picOffset), LinkedSlot(m, a, entrySize, picOffset), target);
  }

  // ---------- The main results ----------

  /** `trapped` holds the trap that set-up makes of the stub at `a` in `m`. */
  ghost predicate SetUpFrom(m: Memory, trapped: Memory, a: nat, entrySize: nat)
    requires Supported(entrySize)
  {
    && IsTrapStub(trapped, a, entrySize, LazyLinkSvc(entrySize))
    && (entrySize != 4 ==> trapped.Read(a + entrySize - 4) == m.Read(a + entrySize - 4))
  }

  lemma TrapEntry(m: Memory, trapped: Memory, a: nat, entrySize: nat)
    requires Supported(entrySize) && m.nullSegmentSize <= a
    requires SameBytes(trapped, WriteTrapStub(m, a, entrySize), a, entrySize)
    ensures SetUpFrom(m, trapped, a, entrySize)
  {
    var alone := WriteTrapStub(m, a, entrySize);
    TrapStubWords(m, a, entrySize);
    TrapStubFramed(alone, trapped, a, entrySize, LazyLinkSvc(entrySize));
    if entrySize != 4 {
      SameWord(alone, trapped, a, entrySize, a + entrySize - 4);
    }
  }

  /** After set-up, a stub that held its original code is a lazy-linking trap with its literal intact. */
  lemma SetUpTraps(m: Memory, s: StubSection, n: nat, i: nat)
    requires Supported(s.entrySize) && m.nullSegmentSize <= StubAddress(s, i) && i < n
    requires HoldsWords(m, StubAddress(s, i), ExpectedInstructions(s.entrySize))
    ensures SetUpFrom(m, SetUpStubs(m, s, n), StubAddress(s, i), s.entrySize)
  {
    SetUpEntry(m, s, n, i);
    TrapEntry(m, SetUpStubs(m, s, n), StubAddress(s, i), s.entrySize);
  }

  /** Linking puts the original instructions back and keeps the literal after them. */
  lemma LinkingRestoresWords(m: Memory, target: word, a: nat, entrySize: nat, picOffset: word, j: nat)
    requires Supported(entrySize) && entrySize != 4 && m.nullSegmentSize <= a
    requires UsableSlot(m, LinkedSlot(m, a, entrySize, picOffset), a, entrySize)
    requires j < entrySize / 4
    ensures LinkByRestoring(m, target, a, entrySize, picOffset).Read(a + 4 * j) ==
            if j < entrySize / 4 - 1 then OriginalInstructions(entrySize)[j] else m.Read(a + 4 * j)
  {
    var r, slot := RestoreStub(m, a, entrySize, picOffset), LinkedSlot(m, a, entrySize, picOffset);
    RestoredWords(m, a, entrySize, picOffset);
    OtherWordKept(r, slot, target, a + 4 * j);
    if j < entrySize / 4 - 1 {
      assert WordAt(r, a, j) == OriginalInstructions(entrySize)[j];
    }
  }

  /**
   What linking achieves for a stub that held its original code in `m` and was set up in `trapped`:
   it trapped before, jumps to exactly the linked function after, and (12- and 16-byte stubs) holds
   its original words again.
   */
  ghost predicate LinkedFaithfully(m: Memory, trapped: Memory, linked: Memory, a: nat, entrySize: nat, target: word) {
    && (forall regs: Registers, n: nat :: n >= 3 ==> Execute(trapped, a, regs, n) == Trap(LazyLinkSvc(entrySize), a))
    && (forall regs: Registers, n: nat :: n >= 3 ==> Execute(linked, a, regs, n) == Jump(target))
    && (entrySize != 4 ==> forall j :: 0 <= j < entrySize / 4 ==> WordAt(linked, a, j) == WordAt(m, a, j))
  }

  lemma LinkedTrapCallsTarget(m: Memory, trapped: Memory, a: nat, entrySize: nat, target: word, picOffset: word)
    requires Supported(entrySize) && a + entrySize <= ADDRESS_SPACE && KeepsOpcode(entrySize, picOffset)
    requires SetUpFrom(m, trapped, a, entrySize)
    requires HoldsWords(m, a, ExpectedInstructions(entrySize))
    requires UsableSlot(trapped, LinkedSlot(trapped, a, entrySize, picOffset), a, entrySize)
    ensures LinkedFaithfully(m, trapped, LinkByRestoring(trapped, target, a, entrySize, picOffset), a, entrySize,
                             target)
  {
    var slot, linked := LinkedSlot(trapped, a, entrySize, picOffset),
        LinkByRestoring(trapped, target, a, entrySize, picOffset);
    LinkingRestores(trapped, target, a, entrySize, picOffset);
    forall regs: Registers, n: nat | n >= 3
      ensures Execute(trapped, a, regs, n) == Trap(LazyLinkSvc(entrySize), a)
              && Execute(linked, a, regs, n) == Jump(target)
    {
      TrapStubTraps(trapped, a, entrySize, LazyLinkSvc(entrySize), regs, n);
      LinkedStubJumps(linked, a, entrySize, slot, target, regs, n);
    }
    if entrySize != 4 {
      forall j | 0 <= j < entrySize / 4 ensures WordAt(linked, a, j) == WordAt(m, a, j) {
        LinkingRestoresWords(trapped, target, a, entrySize, picOffset, j);
        if j < entrySize / 4 - 1 {
          assert WordAt(m, a, j) == ExpectedInstructions(entrySize)[j];
        }
      }
    }
  }

  /** Set-up of a whole section followed by linking of any one of its stubs. */
  lemma LinkedStubCallsTarget(m: Memory, s: StubSection, i: nat, target: word, picOffset: word)
    requires ValidSection(m, s) && i < s.size / s.entrySize && KeepsOpcode(s.entrySize, picOffset)
    requires HoldsWords(m, StubAddress(s, i), ExpectedInstructions(s.entrySize))
    requires var trapped := SetUpStubs(m, s, s.size / s.entrySize);
             UsableSlot(trapped, LinkedSlot(trapped, StubAddress(s, i), s.entrySize, picOffset), StubAddress(s, i),
                        s.entrySize)
    ensures var trapped, a := SetUpStubs(m, s, s.size / s.entrySize), StubAddress(s, i);
            LinkedFaithfully(m, trapped, LinkByRestoring(trapped, target, a, s.entrySize, picOffset), a, s.entrySize,
                             target)
  {
    StubInSection(s, i);
    SetUpTraps(m, s, s.size / s.entrySize, i);
    LinkedTrapCallsTarget(m, SetUpStubs(m, s, s.size / s.entrySize), StubAddress(s, i), s.entrySize, target, picOffset);
  }

  lemma StubInSection(s: StubSection, i: nat)
    requires Supported(s.entrySize) && s.size % s.entrySize == 0 && i < s.size / s.entrySize
    ensures s.addr <= StubAddress(s, i) && StubAddress(s, i) + s.entrySize <= s.addr + s.size
  {
    var n := s.size / s.entrySize;
    StubsAreApart(s, i, n);
    StubAddressIsProduct(s, n);
  }

  /** Linking stub `i` leaves what any other trapped or linked stub means as it was. */
  lemma OtherStubsKeepMeaning(m: Memory, s: StubSection, i: nat, j: nat, target: word, picOffset: word)
    requires ValidSection(m, s) && i < s.size / s.entrySize && j < s.size / s.entrySize && i != j
    requires DisjointRanges(LinkedSlot(m, StubAddress(s, i), s.entrySize, picOffset), 4, s.addr, s.size)
    ensures var e, a, b := s.entrySize, StubAddress(s, i), StubAddress(s, j);
            var slot, linked := LinkedSlot(m, a, e, picOffset), LinkByRestoring(m, target, a, e, picOffset);
            && (forall svc :: 0 <= svc < 0x100_0000 && IsTrapStub(m, b, e, svc) ==> IsTrapStub(linked, b, e, svc))
            && (forall otherSlot, f :: IsLinkedStub(m, b, e, otherSlot, f)
                  && DisjointRanges(otherSlot, 4, slot, 4) && DisjointRanges(otherSlot, 4, s.addr, s.size)
                  ==> IsLinkedStub(linked, b, e, otherSlot, f))
  {
    var e, a, b := s.entrySize, StubAddress(s, i), StubAddress(s, j);
    StubInSection(s, i);
    StubInSection(s, j);
    if i < j { StubsAreApart(s, i, j); } else { StubsAreApart(s, j, i); }
    LinkingFrame(m, target, a, e, picOffset);
    var slot, linked := LinkedSlot(m, a, e, picOffset), LinkByRestoring(m, target, a, e, picOffset);
    forall svc | 0 <= svc < 0x100_0000 && IsTrapStub(m, b, e, svc) ensures IsTrapStub(linked, b, e, svc) {
      TrapStubFramed(m, linked, b, e, svc);
    }
    forall otherSlot, f | IsLinkedStub(m, b, e, otherSlot, f)
                          && DisjointRanges(otherSlot, 4, slot, 4) && DisjointRanges(otherSlot, 4, s.addr, s.size)
      ensures IsLinkedStub(linked, b, e, otherSlot, f)
    {
      LinkedStubFramed(m, linked, b, e, otherSlot, f);
    }
  }

  lemma TrapStubFramed(m: Memory, m': Memory, b: nat, entrySize: nat, svc: nat)
    requires Supported(entrySize) && svc < 0x100_0000
    requires IsTrapStub(m, b, entrySize, svc) && SameBytes(m, m', b, entrySize)
    ensures IsTrapStub(m', b, entrySize, svc)
  {
    SameWord(m, m', b, entrySize, b);
    if entrySize != 4 {
      SameWord(m, m', b, entrySize, b + 4);
    }
  }

  lemma LinkedStubFramed(m: Memory, m': Memory, b: nat, entrySize: nat, slot: nat, f: word)
    requires IsLinkedStub(m, b, entrySize, slot, f)
    requires SameBytes(m, m', b, entrySize) && SameBytes(m, m', slot, 4)
    ensures IsLinkedStub(m', b, entrySize, slot, f)
  {
    SameWord(m, m', slot, 4, slot);
    SamePointer(m, m', b, entrySize);
    if entrySize == 4 {
      SameWord(m, m', b, 4, b);
    } else {
      SamePattern(m, m', b, entrySize, OriginalInstructions(entrySize));
    }
  }

  lemma SamePointer(m: Memory, m': Memory, b: nat, entrySize: nat)
    requires Supported(entrySize) && SameBytes(m, m', b, entrySize)
    ensures SymbolPointer(m, b, entrySize) == SymbolPointer(m', b, entrySize)
  {
    if entrySize == 4 {
      SameWord(m, m', b, 4, b);
    } else {
      SameWord(m, m', b, entrySize, b + entrySize - 4);
    }
  }

  // ---------- Exactly when linking works ----------

  /**
   An input: this offset turns the load into one that writes back its base register, whose effect is
   unpredictable for the program counter.
   */
  lemma WritebackOffset(picOffset: word)
    requires picOffset == 0x20_0000
    ensures !KeepsOpcode(4, picOffset)
    ensures Decode(ToWord(BitOr(SYMBOL_STUB1_INSTRUCTIONS[0], picOffset))) == Other
  {
    WritebackBit(STUB1_OPCODE, picOffset / 0x1000);
    RestoredWord(picOffset);
    WritebackLoadIsOther(ToWord(BitOr(SYMBOL_STUB1_INSTRUCTIONS[0], picOffset)));
  }

  lemma WritebackLoadIsOther(w: word)
    requires w / 0x10_0000 == 0xE5B
    ensures Decode(w) == Other
  {
  }

  lemma WritebackBit(opcode: nat, bit: nat)
    requires opcode == STUB1_OPCODE && bit == 0x200
    ensures BitOr(opcode, bit) == 0xE5BFF
  {
    PowersUsed();
    SetLowestBit(opcode / 0x400);
    BitOrHighField(2 * (opcode / 0x400), opcode % 0x400, bit / 0x200, 9);
  }

  lemma SetLowestBit(a: nat)
    ensures BitOr(2 * a, 1) == 2 * a + 1
  {
    BitOrZero(a);
  }

  /** The instruction a 4-byte stub gets is the original load, unless the offset sets a bit of the opcode. */
  lemma RestoredInstruction(picOffset: word)
    ensures var i := Decode(ToWord(BitOr(SYMBOL_STUB1_INSTRUCTIONS[0], picOffset)));
            if KeepsOpcode(4, picOffset) then i == LoadLiteral(PC, picOffset % 0x1000) else i.Svc? || i.Other?
  {
    var opcode, low := BitOr(STUB1_OPCODE, picOffset / 0x1000), picOffset % 0x1000;
    RestoredWord(picOffset);
    LowField(opcode, low);
    PowersUsed();
    var rest := OnesStay(STUB1_OPCODE / 0x200, picOffset / 0x1000, 9);
    OpcodeDecides(ToWord(BitOr(SYMBOL_STUB1_INSTRUCTIONS[0], picOffset)), opcode, low, rest);
  }

  /** Of the words whose bits 12 to 20 are set, only those with the stub's opcode load, add or branch. */
  lemma OpcodeDecides(w: word, opcode: nat, low: nat, rest: nat)
    requires w == 0x1000 * opcode + low && low < 0x1000 && opcode == 0x200 * rest + 0x1FF
    ensures if opcode == STUB1_OPCODE then Decode(w) == LoadLiteral(PC, low) else Decode(w).Svc? || Decode(w).Other?
  {
    assert w / 0x1_0000 == 0x20 * rest + 0x1F;
    assert w / 0x10_0000 == 2 * rest + 1;
  }

  /**
   Linking works exactly if the restored word is still the load (12- and 16-byte stubs always are)
   and the slot is mapped: a pointer write to the null segment is lost, and the stub then jumps to
   address 0.
   */
  lemma LinkJumpsExactly(m: Memory, a: nat, entrySize: nat, picOffset: word, target: word, regs: Registers, n: nat)
    requires n >= 3
    requires Supported(entrySize) && m.nullSegmentSize <= a && a + entrySize <= ADDRESS_SPACE
    requires DisjointRanges(LinkedSlot(m, a, entrySize, picOffset), 4, a, entrySize)
    ensures var linked := LinkByRestoring(m, target, a, entrySize, picOffset);
            Execute(linked, a, regs, n) == Jump(target) <==>
            KeepsOpcode(entrySize, picOffset)
            && (m.nullSegmentSize <= LinkedSlot(m, a, entrySize, picOffset) || target == 0)
  {
    var slot := LinkedSlot(m, a, entrySize, picOffset);
    var linked := LinkByRestoring(m, target, a, entrySize, picOffset);
    if !KeepsOpcode(entrySize, picOffset) {
      RestoredWords(m, a, entrySize, picOffset);
      RestoredWord(picOffset);
      OtherWordKept(RestoreStub(m, a, entrySize, picOffset), slot, target, a);
      RestoredInstruction(picOffset);
    } else if m.nullSegmentSize <= slot {
      LinkingRestores(m, target, a, entrySize, picOffset);
      LinkedStubJumps(linked, a, entrySize, slot, target, regs, n);
    } else {
      RestoredWords(m, a, entrySize, picOffset);
      assert linked == RestoreStub(m, a, entrySize, picOffset);
      assert IsLinkedStub(linked, a, entrySize, slot, 0);
      LinkedStubJumps(linked, a, entrySize, slot, 0, regs, n);
    }
  }

  /**
   The slot of a 4-byte stub is the lazy pointer at the section's offset exactly if the offset fits
   12 bits: the source reads only those bits back.
   */
  lemma SlotIsLazyPointer(m: Memory, a: nat, picOffset: word)
    requires m.nullSegmentSize <= a
    ensures LinkedSlot(m, a, 4, picOffset) == (a + 8 + picOffset) % ADDRESS_SPACE <==> picOffset < 0x1000
  {
    SlotValue(m, a, 4, picOffset);
    SumsDiffer(a + 8, picOffset % 0x1000, picOffset);
    FitsItsField(picOffset);
  }

  lemma FitsItsField(n: nat)
    ensures n % 0x1000 == n <==> n < 0x1000
  {
  }

  lemma SumsDiffer(a: nat, x: word, y: word)
    ensures (a + x) % ADDRESS_SPACE == (a + y) % ADDRESS_SPACE <==> x == y
  {
    var q, r := (a + x) / ADDRESS_SPACE, (a + y) / ADDRESS_SPACE;
    assert a + x == ADDRESS_SPACE * q + (a + x) % ADDRESS_SPACE;
    assert a + y == ADDRESS_SPACE * r + (a + y) % ADDRESS_SPACE;
  }

  /**
   With a multiple of 0x1000 as offset the slot is the stub two further on, which linking thus
   overwrites with the function's address; 0x1000 is such an offset that keeps the load.
   */
  lemma WideOffsetOverwritesStub(m: Memory, s: StubSection, i: nat, target: word, picOffset: word)
    requires ValidSection(m, s) && s.entrySize == 4 && i + 2 < s.size / 4 && picOffset % 0x1000 == 0
    ensures LinkedSlot(m, StubAddress(s, i), 4, picOffset) == StubAddress(s, i + 2)
    ensures LinkByRestoring(m, target, StubAddress(s, i), 4, picOffset).Read(StubAddress(s, i + 2)) == target
    ensures picOffset / 0x1000 == 1 ==> KeepsOpcode(4, picOffset)
  {
    StubInSection(s, i);
    StubInSection(s, i + 2);
    TwoStubsFurther(s, i);
    ThirdStubOverwritten(m, StubAddress(s, i), target, picOffset);
    OneStays(STUB1_OPCODE, picOffset / 0x1000);
  }

  lemma TwoStubsFurther(s: StubSection, i: nat)
    requires s.entrySize == 4
    ensures StubAddress(s, i + 2) == StubAddress(s, i) + 8
  {
    assert StubAddress(s, i + 1) == StubAddress(s, i) + 4;
  }

  lemma ThirdStubOverwritten(m: Memory, a: nat, target: word, offset: word)
    requires m.nullSegmentSize <= a && a + 12 <= ADDRESS_SPACE && offset % 0x1000 == 0
    ensures LinkedSlot(m, a, 4, offset) == a + 8
    ensures LinkByRestoring(m, target, a, 4, offset).Read(a + 8) == target
  {
    SlotValue(m, a, 4, offset);
    WordWritten(RestoreStub(m, a, 4, offset), a + 8, target);
  }

  lemma OneStays(a: nat, one: nat)
    requires a % 2 == 1
    ensures one == 1 ==> BitOr(a, one) == a
  {
    BitOrZero(a / 2);
  }
}
