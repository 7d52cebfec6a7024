/**
 The guest calling convention (`src/abi.rs`): arguments are spread over r0-r3 and the stack, possibly
 split between them (section 5.5 of the Procedure Call Standard for the Arm Architecture). An
 argument or return value is the list of words its type occupies.
 */
module CallingConvention {
  import opened Wrappers
  import opened GuestMemory

  const REGISTER_ARGS := 4
  const SP := 13

  type Registers = r: seq<word> | |r| == 16 witness seq(16, _ => 0)

  // ---------- Where argument words go ----------

  /** The stack slot of the argument word at `offset`; addresses wrap around. */
  function StackSlot(sp: word, offset: nat): word
    requires offset >= REGISTER_ARGS
  {
    (sp + 4 * (offset - REGISTER_ARGS)) % ADDRESS_SPACE
  }

  function WriteWords(regs: Registers, m: Memory, offset: nat, words: seq<word>): (Registers, Memory)
    decreases words
  {
    if words == [] then (regs, m)
    else if offset < REGISTER_ARGS then WriteWords(regs[offset := words[0]], m, offset + 1, words[1..])
    else WriteWords(regs, m.Write(StackSlot(regs[SP], offset), words[0]), offset + 1, words[1..])
  }

  function ReadWord(regs: Registers, m: Memory, sp: word, offset: nat): word {
    if offset < REGISTER_ARGS then regs[offset] else m.Read(StackSlot(sp, offset))
  }

  function ReadWords(regs: Registers, m: Memory, sp: word, offset: nat, n: nat): (words: seq<word>)
    ensures |words| == n
  {
    seq<word>(n, i requires 0 <= i < n => ReadWord(regs, m, sp, offset + i))
  }

  lemma ReadWordsSplit(regs: Registers, m: Memory, sp: word, offset: nat, n: nat, k: nat)
    ensures ReadWords(regs, m, sp, offset, n + k) ==
            ReadWords(regs, m, sp, offset, n) + ReadWords(regs, m, sp, offset + n, k)
  {
    var left, right, all := ReadWords(regs, m, sp, offset, n), ReadWords(regs, m, sp, offset + n, k),
        ReadWords(regs, m, sp, offset, n + k);
    forall i | 0 <= i < n + k ensures all[i] == (left + right)[i] {
      if i >= n {
        assert right[i - n] == ReadWord(regs, m, sp, offset + n + (i - n));
      }
    }
  }

  lemma ReadOneWord(regs: Registers, m: Memory, sp: word, offset: nat)
    ensures ReadWords(regs, m, sp, offset, 1) == [ReadWord(regs, m, sp, offset)]
  {
    assert ReadWords(regs, m, sp, offset, 1)[0] == ReadWord(regs, m, sp, offset + 0);
  }

  /** The stack words up to `offset` lie in mapped memory, without wrapping around. */
  predicate StackFits(m: Memory, sp: word, offset: nat) {
    offset > REGISTER_ARGS ==> m.nullSegmentSize <= sp && sp + 4 * (offset - REGISTER_ARGS) <= ADDRESS_SPACE
  }

  /** Writing argument words only touches argument registers and their stack slots. */
  lemma {:induction false} WriteFrame(regs: Registers, m: Memory, offset: nat, words: seq<word>)
    requires StackFits(m, regs[SP], offset + |words|)
    ensures var (regs', m') := WriteWords(regs, m, offset, words);
            && (forall r :: REGISTER_ARGS <= r < 16 ==> regs'[r] == regs[r])
            && (forall r :: 0 <= r < offset && r < REGISTER_ARGS ==> regs'[r] == regs[r])
            && (forall r :: offset + |words| <= r < REGISTER_ARGS ==> regs'[r] == regs[r])
            && SameOutside(m, m', SlotStart(regs[SP], offset), SlotStart(regs[SP], offset + |words|))
    decreases words
  {
    if words != [] {
      if offset < REGISTER_ARGS {
        WriteFrame(regs[offset := words[0]], m, offset + 1, words[1..]);
      } else {
        var m1 := m.Write(StackSlot(regs[SP], offset), words[0]);
        ByteAfterWrite(m, StackSlot(regs[SP], offset), words[0]);
        assert SameOutside(m, m1, SlotStart(regs[SP], offset), SlotStart(regs[SP], offset + 1));
        WriteFrame(regs, m1, offset + 1, words[1..]);
      }
    }
  }

  ghost predicate SameOutside(m: Memory, m': Memory, from: nat, to: nat) {
    m'.nullSegmentSize == m.nullSegmentSize && forall a: nat :: !(from <= a < to) ==> m'.Byte(a) == m.Byte(a)
  }

  /** The first stack byte that belongs to the argument words from `offset` on. */
  function SlotStart(sp: word, offset: nat): nat {
    if offset <= REGISTER_ARGS then sp else sp + 4 * (offset - REGISTER_ARGS)
  }

  /** Words that were written are read back unchanged, across registers and stack. */
  lemma {:induction false} WrittenWordsAreRead(regs: Registers, m: Memory, offset: nat, words: seq<word>)
    requires StackFits(m, regs[SP], offset + |words|)
    ensures var (regs', m') := WriteWords(regs, m, offset, words);
            ReadWords(regs', m', regs[SP], offset, |words|) == words
    decreases words
  {
    if words != [] {
      var (regs', m') := WriteWords(regs, m, offset, words);
      if offset < REGISTER_ARGS {
        WrittenWordsAreRead(regs[offset := words[0]], m, offset + 1, words[1..]);
      } else {
        WrittenWordsAreRead(regs, m.Write(StackSlot(regs[SP], offset), words[0]), offset + 1, words[1..]);
      }
      FirstWordArrives(regs, m, offset, words);
      ReadWordsSplit(regs', m', regs[SP], offset, 1, |words| - 1);
      ReadOneWord(regs', m', regs[SP], offset);
    }
  }

  lemma FirstWordArrives(regs: Registers, m: Memory, offset: nat, words: seq<word>)
    requires words != [] && StackFits(m, regs[SP], offset + |words|)
    ensures var (regs', m') := WriteWords(regs, m, offset, words);
            ReadWord(regs', m', regs[SP], offset) == words[0]
  {
    if offset < REGISTER_ARGS {
      WriteFrame(regs[offset := words[0]], m, offset + 1, words[1..]);
    } else {
      StackWordArrives(regs, m, offset, words);
    }
  }

  /** A slot in mapped memory does not wrap around. */
  lemma SlotInMemory(m: Memory, sp: word, offset: nat)
    requires offset >= REGISTER_ARGS && StackFits(m, sp, offset + 1)
    ensures m.nullSegmentSize <= StackSlot(sp, offset) == SlotStart(sp, offset)
    ensures StackSlot(sp, offset) + 4 == SlotStart(sp, offset + 1)
  {
  }

  lemma StackWordArrives(regs: Registers, m: Memory, offset: nat, words: seq<word>)
    requires words != [] && offset >= REGISTER_ARGS && StackFits(m, regs[SP], offset + |words|)
    ensures WriteWords(regs, m, offset, words).1.Read(StackSlot(regs[SP], offset)) == words[0]
  {
    var slot: nat := StackSlot(regs[SP], offset);
    SlotInMemory(m, regs[SP], offset);
    WordWritten(m, slot, words[0]);
    WriteFrame(regs, m.Write(slot, words[0]), offset + 1, words[1..]);
    var m' := WriteWords(regs, m.Write(slot, words[0]), offset + 1, words[1..]).1;
    WordBelowKept(m.Write(slot, words[0]), m', slot, SlotStart(regs[SP], offset + 1 + |words[1..]|));
  }

  lemma WordBelowKept(m: Memory, m': Memory, a: nat, to: nat)
    requires SameOutside(m, m', a + 4, to)
    ensures m'.Read(a) == m.Read(a)
  {
    SameWord(m, m', a, 4, a);
  }

  function Flatten(args: seq<seq<word>>): seq<word> {
    if args == [] then [] else args[0] + Flatten(args[1..])
  }

  /** Writing one list of words after another. */
  lemma {:induction false} WriteConcat(regs: Registers, m: Memory, offset: nat, words: seq<word>, more: seq<word>)
    ensures WriteWords(regs, m, offset, words + more) ==
            var (regs1, m1) := WriteWords(regs, m, offset, words); WriteWords(regs1, m1, offset + |words|, more)
    decreases words
  {
    if words == [] {
      assert words + more == more;
    } else {
      assert (words + more)[1..] == words[1..] + more;
      if offset < REGISTER_ARGS {
        WriteConcat(regs[offset := words[0]], m, offset + 1, words[1..], more);
      } else {
        WriteConcat(regs, m.Write(StackSlot(regs[SP], offset), words[0]), offset + 1, words[1..], more);
      }
    }
  }

  /** The arguments as a callee reads them one by one, given how many words each occupies. */
  function ReadArgs(regs: Registers, m: Memory, sp: word, offset: nat, sizes: seq<nat>): seq<seq<word>>
    decreases sizes
  {
    if sizes == [] then [] else
      [ReadWords(regs, m, sp, offset, sizes[0])] + ReadArgs(regs, m, sp, offset + sizes[0], sizes[1..])
  }

  function Sizes(args: seq<seq<word>>): seq<nat> {
    seq<nat>(|args|, i requires 0 <= i < |args| => |args[i]|)
  }

  lemma ReadInTwoParts(regs: Registers, m: Memory, sp: word, offset: nat, words: seq<word>, more: seq<word>)
    requires ReadWords(regs, m, sp, offset, |words + more|) == words + more
    ensures ReadWords(regs, m, sp, offset, |words|) == words
    ensures ReadWords(regs, m, sp, offset + |words|, |more|) == more
  {
    ReadWordsSplit(regs, m, sp, offset, |words|, |more|);
    SameParts(words, more, ReadWords(regs, m, sp, offset, |words|), ReadWords(regs, m, sp, offset + |words|, |more|));
  }

  lemma SameParts(words: seq<word>, more: seq<word>, words': seq<word>, more': seq<word>)
    requires words + more == words' + more' && |words| == |words'|
    ensures words == words' && more == more'
  {
    assert (words + more)[..|words|] == words && (words' + more')[..|words|] == words';
    assert (words + more)[|words|..] == more && (words' + more')[|words|..] == more';
  }

  /** Reading argument by argument splits the words where writing joined them. */
  lemma {:induction false} ArgsAreRead(regs: Registers, m: Memory, sp: word, offset: nat, args: seq<seq<word>>)
    requires ReadWords(regs, m, sp, offset, |Flatten(args)|) == Flatten(args)
    ensures ReadArgs(regs, m, sp, offset, Sizes(args)) == args
    decreases args
  {
    if args != [] {
      ReadInTwoParts(regs, m, sp, offset, args[0], Flatten(args[1..]));
      assert Sizes(args)[1..] == Sizes(args[1..]);
      ArgsAreRead(regs, m, sp, offset + |args[0]|, args[1..]);
    }
  }

  lemma {:induction false} FlattenConcat(args: seq<seq<word>>, more: seq<seq<word>>)
    ensures Flatten(args + more) == Flatten(args) + Flatten(more)
  {
    if args == [] {
      assert args + more == more;
    } else {
      assert (args + more)[1..] == args[1..] + more;
      FlattenConcat(args[1..], more);
    }
  }

  /** Variadic arguments are read on from where the fixed ones end (src/abi.rs:457-468). */
  lemma VariadicArgsAreRead(regs: Registers, m: Memory, sp: word, offset: nat, args: seq<seq<word>>,
                            more: seq<seq<word>>)
    requires var words := Flatten(args + more); ReadWords(regs, m, sp, offset, |words|) == words
    ensures ReadArgs(regs, m, sp, offset, Sizes(args)) == args
    ensures ReadArgs(regs, m, sp, offset + |Flatten(args)|, Sizes(more)) == more
  {
    FlattenConcat(args, more);
    ReadInTwoParts(regs, m, sp, offset, Flatten(args), Flatten(more));
    ArgsAreRead(regs, m, sp, offset, args);
    ArgsAreRead(regs, m, sp, offset + |Flatten(args)|, more);
  }

  // ---------- 64-bit values (src/abi.rs:565-578) ----------

  const TWO_TO_64 := 0x1_0000_0000_0000_0000

  function LongToRegs(v: nat): (words: seq<word>)
    requires v < TWO_TO_64
    ensures |words| == 2
  {
    [v % ADDRESS_SPACE, v / ADDRESS_SPACE]
  }

  function LongFromRegs(words: seq<word>): nat
    requires |words| == 2
  {
    FromLittleEndian(ToLittleEndian(words[0]) + ToLittleEndian(words[1]))
  }

  lemma {:induction false} LittleEndianConcat(s: seq<byte>, t: seq<byte>)
    requires |s| == 4
    ensures FromLittleEndian(s + t) == FromLittleEndian(s) + ADDRESS_SPACE * FromLittleEndian(t)
  {
    var u := s + t;
    assert u[1..][1..][1..][1..] == t;
    assert u[1..][0] == s[1] && u[1..][1..][0] == s[2] && u[1..][1..][1..][0] == s[3];
    FromFourBytes(s);
    assert FromLittleEndian(u[1..][1..][1..]) == s[3] + 0x100 * FromLittleEndian(t);
    assert FromLittleEndian(u[1..][1..]) == s[2] + 0x100 * FromLittleEndian(u[1..][1..][1..]);
  }

  /** A 64-bit value survives being split over two words, of which the first is the low one. */
  lemma LongRoundTrip(v: nat)
    requires v < TWO_TO_64
    ensures LongFromRegs(LongToRegs(v)) == v
    ensures var low: nat, high: nat := LongToRegs(v)[0], LongToRegs(v)[1]; low + 0x1_0000_0000 * high == v
  {
    var words := LongToRegs(v);
    LittleEndianConcat(ToLittleEndian(words[0]), ToLittleEndian(words[1]));
    LittleEndianRoundTrip(words[0]);
    LittleEndianRoundTrip(words[1]);
  }

  // ---------- The calls ----------

  /** `write_next_arg`: no argument type occupies more than 16 words. */
  method WriteNextArg(regs: array<word>, mem: Mem, regOffset: nat, arg: seq<word>) returns (newOffset: nat)
    requires regs.Length == 16 && |arg| <= 16
    modifies regs, mem
    ensures (regs[..], mem.contents) == WriteWords(old(regs[..]), old(mem.contents), regOffset, arg)
    ensures newOffset == regOffset + |arg|
  {
    newOffset := regOffset;
    for i := 0 to |arg|
      invariant newOffset == regOffset + i
      invariant WriteWords(regs[..], mem.contents, newOffset, arg[i..]) ==
              WriteWords(old(regs[..]), old(mem.contents), regOffset, arg)
    {
      assert arg[i..][1..] == arg[i + 1..];
      if newOffset < REGISTER_ARGS {
        regs[newOffset] := arg[i];
      } else {
        mem.Write(StackSlot(regs[SP], newOffset), arg[i]);
      }
      newOffset := newOffset + 1;
    }
  }

  /** `read_next_arg` for an argument of `n` words, also used by `VaList::next`. */
  method ReadNextArg(regs: array<word>, mem: Mem, sp: word, regOffset: nat, n: nat)
    returns (arg: seq<word>, newOffset: nat)
    requires regs.Length == 16 && n <= 16
    ensures arg == ReadWords(regs[..], mem.contents, sp, regOffset, n) && newOffset == regOffset + n
  {
    arg, newOffset := [], regOffset;
    for i := 0 to n
      invariant newOffset == regOffset + i && arg == ReadWords(regs[..], mem.contents, sp, regOffset, i)
    {
      ReadWordsSplit(regs[..], mem.contents, sp, regOffset, i, 1);
      ReadOneWord(regs[..], mem.contents, sp, newOffset);
      var fakeReg := if newOffset < REGISTER_ARGS then regs[newOffset] else mem.contents.Read(StackSlot(sp, newOffset));
      arg := arg + [fakeReg];
      newOffset := newOffset + 1;
    }
  }

  /** How far the stack pointer moves for `count` argument words. */
  function StackBytes(count: nat): nat {
    if count > REGISTER_ARGS then 4 * (count - REGISTER_ARGS) else 0
  }

  method ExtendStackForArgs(regs: array<word>, count: nat) returns (oldSp: word)
    requires regs.Length == 16
    modifies regs
    ensures oldSp == old(regs[SP])
    ensures regs[..] == old(regs[..])[SP := (old(regs[SP]) - StackBytes(count)) % ADDRESS_SPACE]
  {
    oldSp := regs[SP];
    if count > REGISTER_ARGS {
      regs[SP] := (oldSp - 4 * (count - REGISTER_ARGS)) % ADDRESS_SPACE;
    }
  }

  /** How a host function's result travels: in `n` words of registers, or in a buffer of `n` words. */
  datatype Return = InRegisters(n: nat) | InMemory(n: nat)

  /**
   Return types in registers have at most two words; those returned through memory are larger than
   one word.
   */
  predicate ValidReturn(ret: Return) {
    match ret
    case InRegisters(n) => n <= 2
    case InMemory(n) => n >= 2
  }

  /** What a host function returns, and the registers and memory it leaves behind. */
  datatype Effect = Effect(result: seq<word>, regs: Registers, memory: Memory)

  /** A host function receives its argument words, and may change registers and memory as it likes. */
  type HostFunction = (seq<seq<word>>, Registers, Memory) -> Effect

  /** Its results have the type's size, and the null segment stays as it is. */
  ghost predicate Returns(f: HostFunction, ret: Return) {
    forall args, regs, m ::
      |f(args, regs, m).result| == ret.n && f(args, regs, m).memory.nullSegmentSize == m.nullSegmentSize
  }

  /** Host functions are called with every argument in place. */
  ghost predicate ArgsInPlace(regs: Registers, m: Memory, args: seq<seq<word>>, ret: Return, buffer: word) {
    var offset := if ret.InMemory? then 1 else 0;
    && (ret.InMemory? ==> regs[0] == buffer)
    && ReadArgs(regs, m, regs[SP], offset, Sizes(args)) == args
  }

  lemma NextArgRead(regs: Registers, m: Memory, sp: word, offset: nat, sizes: seq<nat>, i: nat, args: seq<seq<word>>)
    requires i < |sizes|
    ensures args + ReadArgs(regs, m, sp, offset, sizes[i..]) ==
            args + [ReadWords(regs, m, sp, offset, sizes[i])] + ReadArgs(regs, m, sp, offset + sizes[i], sizes[i + 1..])
  {
    assert sizes[i..][1..] == sizes[i + 1..];
    assert sizes[i..][0] == sizes[i];
  }

  /** Reading all of a callee's arguments (src/abi.rs:132-134). */
  method ReadAllArgs(regs: array<word>, mem: Mem, offset: nat, sizes: seq<nat>) returns (args: seq<seq<word>>)
    requires regs.Length == 16 && forall i :: 0 <= i < |sizes| ==> sizes[i] <= 16
    ensures args == ReadArgs(regs[..], mem.contents, regs[SP], offset, sizes)
  {
    var regOffset, sp := offset, regs[SP];
    ghost var r, m := regs[..], mem.contents;
    args := [];
    assert sizes[0..] == sizes;
    for i := 0 to |sizes|
      invariant args + ReadArgs(r, m, sp, regOffset, sizes[i..]) == ReadArgs(r, m, sp, offset, sizes)
    {
      NextArgRead(r, m, sp, regOffset, sizes, i, args);
      var arg;
      arg, regOffset := ReadNextArg(regs, mem, sp, regOffset, sizes[i]);
      args := args + [arg];
    }
  }

  /** `to_regs` of a return value. */
  method ResultToRegs(result: seq<word>, regs: array<word>)
    requires regs.Length == 16 && |result| <= 2
    modifies regs
    ensures regs[..] == result + old(regs[..])[|result|..]
  {
    for i := 0 to |result|
      invariant forall j :: 0 <= j < i ==> regs[j] == result[j]
      invariant forall j :: i <= j < 16 ==> regs[j] == old(regs[j])
    {
      regs[i] := result[i];
    }
    assert regs[..] == result + old(regs[..])[|result|..];
  }

  /** `to_mem` of a return value. */
  method ResultToMem(result: seq<word>, buffer: word, mem: Mem)
    modifies mem
    ensures mem.contents == StoreWords(old(mem.contents), buffer, result)
  {
    for i := 0 to |result|
      invariant mem.contents == StoreWords(old(mem.contents), buffer, result[..i])
    {
      assert result[..i + 1][..i] == result[..i];
      mem.Write(buffer + 4 * i, result[i]);
    }
    assert result[..|result|] == result;
  }

  function FirstOffset(ret: Return): nat {
    if ret.InMemory? then 1 else 0
  }

  /** The function's effect when it is called with these registers and memory. */
  function Called(f: HostFunction, regs: Registers, m: Memory, ret: Return, sizes: seq<nat>): Effect {
    f(ReadArgs(regs, m, regs[SP], FirstOffset(ret), sizes), regs, m)
  }

  /** The registers once a result has been passed back. */
  function ReturnRegs(effect: Effect, ret: Return): Registers
    requires |effect.result| == ret.n && ValidReturn(ret)
  {
    if ret.InMemory? then effect.regs else effect.result + effect.regs[ret.n..]
  }

  /** The memory once a result has been passed back. */
  function ReturnMemory(effect: Effect, ret: Return, buffer: word): Memory {
    if ret.InMemory? then StoreWords(effect.memory, buffer, effect.result) else effect.memory
  }

  /**
   `CallFromGuest::call_from_guest`: read the arguments, call, and pass the result back, all other
   registers and bytes being as the function left them.
   */
  method CallFromGuest(f: HostFunction, sizes: seq<nat>, ret: Return, regs: array<word>, mem: Mem)
    requires regs.Length == 16 && ValidReturn(ret) && Returns(f, ret)
    requires forall i :: 0 <= i < |sizes| ==> sizes[i] <= 16
    modifies regs, mem
    ensures var effect := Called(f, old(regs[..]), old(mem.contents), ret, sizes);
            && regs[..] == ReturnRegs(effect, ret) && mem.contents == ReturnMemory(effect, ret, old(regs[0]))
            && (ret.InRegisters? ==> regs[..ret.n] == effect.result && mem.contents == effect.memory)
            && (ret.InMemory? && old(mem.contents).nullSegmentSize <= old(regs[0]) ==>
                  regs[..] == effect.regs && HoldsWords(mem.contents, old(regs[0]), effect.result))
  {
    var regOffset := 0;
    var pointer: seq<word> := [];
    if ret.InMemory? {
      pointer, regOffset := ReadNextArg(regs, mem, regs[SP], 0, 1);
      ReadOneWord(regs[..], mem.contents, regs[SP], 0);
    }
    var args := ReadAllArgs(regs, mem, regOffset, sizes);
    var effect := f(args, regs[..], mem.contents);
    Leave(effect, regs, mem);
    if ret.InMemory? {
      ResultToMem(effect.result, pointer[0], mem);
      if effect.memory.nullSegmentSize <= pointer[0] {
        StoredWords(effect.memory, pointer[0], effect.result);
      }
    } else {
      ResultToRegs(effect.result, regs);
    }
  }

  /** The function runs. */
  method Leave(effect: Effect, regs: array<word>, mem: Mem)
    requires regs.Length == 16
    modifies regs, mem
    ensures regs[..] == effect.regs && mem.contents == effect.memory
  {
    forall r | 0 <= r < 16 {
      regs[r] := effect.regs[r];
    }
    mem.contents := effect.memory;
  }

  // ---------- A whole call from the host ----------

  /** Where the return buffer and the stack arguments go, below the caller's stack pointer. */
  function BufferSp(sp: word, ret: Return): int {
    if ret.InMemory? then sp - 4 * ret.n else sp
  }

  function CalleeSp(sp: word, ret: Return, count: nat): int {
    BufferSp(sp, ret) - StackBytes(count)
  }

  /** The registers before any argument is written. */
  function CallerRegs(regs: Registers, ret: Return, count: nat): Registers
    requires 0 <= CalleeSp(regs[SP], ret, count)
  {
    var regs1 := regs[SP := CalleeSp(regs[SP], ret, count)];
    if ret.InMemory? then regs1[0 := BufferSp(regs[SP], ret)] else regs1
  }

  /** The registers and memory as the callee finds them. */
  function CallerSide(regs: Registers, m: Memory, args: seq<seq<word>>, ret: Return): (Registers, Memory)
    requires 0 <= CalleeSp(regs[SP], ret, |Flatten(args)|)
  {
    WriteWords(CallerRegs(regs, ret, |Flatten(args)|), m, FirstOffset(ret), Flatten(args))
  }

  /** The bytes that hold stack arguments: below the caller's stack pointer, and at most one word of the buffer. */
  lemma ArgumentSlots(sp: word, ret: Return, count: nat)
    requires ValidReturn(ret) && 0 <= CalleeSp(sp, ret, count)
    ensures var callee, offset := CalleeSp(sp, ret, count), FirstOffset(ret);
            && SlotStart(callee, offset) == callee <= sp
            && callee <= SlotStart(callee, offset + count) <= (if ret.InMemory? then BufferSp(sp, ret) + 4 else sp)
            && BufferSp(sp, ret) + (if ret.InMemory? then 4 else 0) <= sp
            && callee + StackBytes(count) == BufferSp(sp, ret)
  {
  }

  lemma WiderFrame(m: Memory, m': Memory, from: nat, to: nat, wider: nat)
    requires SameOutside(m, m', from, to) && to <= wider
    ensures SameOutside(m, m', from, wider)
  {
  }

  /** Arguments written word by word are read back one by one. */
  lemma WrittenArgsAreRead(regs: Registers, m: Memory, offset: nat, args: seq<seq<word>>)
    requires StackFits(m, regs[SP], offset + |Flatten(args)|)
    ensures var (regs', m') := WriteWords(regs, m, offset, Flatten(args));
            && ReadArgs(regs', m', regs[SP], offset, Sizes(args)) == args
            && ReadWords(regs', m', regs[SP], offset, |Flatten(args)|) == Flatten(args)
  {
    var (regs', m') := WriteWords(regs, m, offset, Flatten(args));
    WrittenWordsAreRead(regs, m, offset, Flatten(args));
    ArgsAreRead(regs', m', regs[SP], offset, args);
  }

  /** Which registers and bytes the argument words leave alone. */
  lemma ArgumentBytes(regs: Registers, m: Memory, args: seq<seq<word>>, ret: Return)
    requires ValidReturn(ret) && m.nullSegmentSize <= CalleeSp(regs[SP], ret, |Flatten(args)|)
    ensures var (regs', m') := CallerSide(regs, m, args, ret);
            var callee, buffer := CalleeSp(regs[SP], ret, |Flatten(args)|), BufferSp(regs[SP], ret);
            && regs'[SP] == callee && (ret.InMemory? ==> regs'[0] == buffer)
            && (forall r :: REGISTER_ARGS <= r < 16 && r != SP ==> regs'[r] == regs[r])
            && SameOutside(m, m', callee, regs[SP])
            && (ret.InMemory? ==> SameOutside(m, m', callee, buffer + 4))
  {
    var sp, words, offset := CalleeSp(regs[SP], ret, |Flatten(args)|), Flatten(args), FirstOffset(ret);
    var regs1 := CallerRegs(regs, ret, |words|);
    var (regs', m') := CallerSide(regs, m, args, ret);
    ArgumentSlots(regs[SP], ret, |words|);
    assert regs1[SP] == sp && StackFits(m, sp, offset + |words|);
    WriteFrame(regs1, m, offset, words);
    WiderFrame(m, m', sp, SlotStart(sp, offset + |words|), regs[SP]);
    if ret.InMemory? {
      WiderFrame(m, m', sp, SlotStart(sp, offset + |words|), BufferSp(regs[SP], ret) + 4);
    }
  }

  /** They fit between the null segment and the end of memory, so that they are read back. */
  lemma ArgumentsRead(regs: Registers, m: Memory, args: seq<seq<word>>, ret: Return)
    requires ValidReturn(ret) && m.nullSegmentSize <= CalleeSp(regs[SP], ret, |Flatten(args)|)
    ensures var (regs', m') := CallerSide(regs, m, args, ret);
            var callee := CalleeSp(regs[SP], ret, |Flatten(args)|);
            && ReadArgs(regs', m', callee, FirstOffset(ret), Sizes(args)) == args
            && ReadWords(regs', m', callee, FirstOffset(ret), |Flatten(args)|) == Flatten(args)
  {
    ArgumentSlots(regs[SP], ret, |Flatten(args)|);
    WrittenArgsAreRead(CallerRegs(regs, ret, |Flatten(args)|), m, FirstOffset(ret), args);
  }

  lemma LastWordInBuffer(regs: Registers, m: Memory, args: seq<seq<word>>, ret: Return)
    requires ValidReturn(ret) && m.nullSegmentSize <= CalleeSp(regs[SP], ret, |Flatten(args)|)
    requires ret.InMemory? && |Flatten(args)| >= REGISTER_ARGS
    ensures CallerSide(regs, m, args, ret).1.Read(BufferSp(regs[SP], ret)) == Flatten(args)[|Flatten(args)| - 1]
  {
    var (regs', m') := CallerSide(regs, m, args, ret);
    ArgumentsRead(regs, m, args, ret);
    LastStackWord(regs', m', CalleeSp(regs[SP], ret, |Flatten(args)|), Flatten(args));
  }

  /** The last word read back after a hidden pointer lies just past the words the stack was extended by. */
  lemma LastStackWord(regs: Registers, m: Memory, sp: word, words: seq<word>)
    requires |words| >= REGISTER_ARGS && ReadWords(regs, m, sp, 1, |words|) == words
    requires sp + StackBytes(|words|) < ADDRESS_SPACE
    ensures m.Read(sp + StackBytes(|words|)) == words[|words| - 1]
  {
    var n := |words|;
    assert ReadWords(regs, m, sp, 1, n)[n - 1] == ReadWord(regs, m, sp, 1 + (n - 1));
    assert StackSlot(sp, n) == sp + StackBytes(n);
  }

  /**
   The argument words stay below the caller's stack pointer, and the callee reads them all. The hidden
   return pointer displaces one word that the stack was not extended for: with four or more argument
   words the last one lands in the first word of the return buffer, whose other words are untouched.
   */
  lemma ArgumentsArrive(regs: Registers, m: Memory, args: seq<seq<word>>, ret: Return)
    requires ValidReturn(ret) && m.nullSegmentSize <= CalleeSp(regs[SP], ret, |Flatten(args)|)
    ensures var (regs', m') := CallerSide(regs, m, args, ret);
            var callee, buffer, words := CalleeSp(regs[SP], ret, |Flatten(args)|), BufferSp(regs[SP], ret),
                Flatten(args);
            && ArgsInPlace(regs', m', args, ret, buffer)
            && regs'[SP] == callee
            && (forall r :: REGISTER_ARGS <= r < 16 && r != SP ==> regs'[r] == regs[r])
            && SameOutside(m, m', callee, regs[SP])
            && (ret.InMemory? ==> SameOutside(m, m', callee, buffer + 4))
            && (ret.InMemory? && |words| >= REGISTER_ARGS ==> m'.Read(buffer) == words[|words| - 1])
  {
    ArgumentBytes(regs, m, args, ret);
    ArgumentsRead(regs, m, args, ret);
    if ret.InMemory? && |Flatten(args)| >= REGISTER_ARGS {
      LastWordInBuffer(regs, m, args, ret);
    }
  }

  /** Word `i` of the arguments lies in its register or stack slot; a hidden return pointer comes before them all. */
  ghost predicate WordInPlace(regs: Registers, m: Memory, words: seq<word>, hidden: nat, i: nat) {
    i < |words| ==> words[i] == if hidden + i < 4 then regs[hidden + i] else m.Read(regs[13] + 4 * (hidden + i - 4))
  }

  /**
   Where the callee finds its stack and each argument word: the first four words, counting a hidden pointer,
   in r0 to r3, and the others from the stack pointer on, four bytes apart. The stack has moved down by the
   return buffer and the words beyond the fourth, not counting the pointer. Unused registers keep their values.
   */
  lemma ArgumentPlaces(regs: Registers, m: Memory, args: seq<seq<word>>, ret: Return, i: nat)
    requires ValidReturn(ret) && m.nullSegmentSize <= CalleeSp(regs[SP], ret, |Flatten(args)|)
    ensures var (regs', m') := CallerSide(regs, m, args, ret);
            var words := Flatten(args);
            && WordInPlace(regs', m', words, if ret.InMemory? then 1 else 0, i)
            && regs'[13] == regs[13] - (if ret.InMemory? then 4 * ret.n else 0)
                            - (if |words| > 4 then 4 * (|words| - 4) else 0)
            && (ret.InMemory? ==> regs'[0] == regs[13] - 4 * ret.n)
            && (forall r :: (if ret.InMemory? then 1 else 0) + |words| <= r < 4 ==> regs'[r] == regs[r])
  {
    var (regs', m') := CallerSide(regs, m, args, ret);
    var words, sp: nat := Flatten(args), CalleeSp(regs[SP], ret, |Flatten(args)|);
    ArgumentBytes(regs, m, args, ret);
    ArgumentsRead(regs, m, args, ret);
    WriteFrame(CallerRegs(regs, ret, |words|), m, FirstOffset(ret), words);
    if i < |words| {
      var k := FirstOffset(ret) + i;
      assert ReadWords(regs', m', sp, FirstOffset(ret), |words|)[i] == ReadWord(regs', m', sp, k);
      if k >= 4 {
        SlotInMemory(m, sp, k);
      }
    }
  }

  /** The words of each argument come one after the other, and the arguments do, too. */
  lemma FlattenedWord(args: seq<seq<word>>, j: nat, i: nat)
    requires j < |args| && i < |args[j]|
    ensures |Flatten(args[..j])| + i < |Flatten(args)|
    ensures Flatten(args)[|Flatten(args[..j])| + i] == args[j][i]
  {
    assert args == args[..j] + ([args[j]] + args[j + 1..]);
    FlattenConcat(args[..j], [args[j]] + args[j + 1..]);
    assert ([args[j]] + args[j + 1..])[1..] == args[j + 1..];
    assert Flatten([args[j]] + args[j + 1..]) == args[j] + Flatten(args[j + 1..]);
  }

  method WriteAllArgs(args: seq<seq<word>>, offset: nat, regs: array<word>, mem: Mem)
    requires regs.Length == 16 && forall i :: 0 <= i < |args| ==> |args[i]| <= 16
    modifies regs, mem
    ensures (regs[..], mem.contents) == WriteWords(old(regs[..]), old(mem.contents), offset, Flatten(args))
  {
    var regOffset := offset;
    for i := 0 to |args|
      invariant WriteWords(regs[..], mem.contents, regOffset, Flatten(args[i..]))
                == WriteWords(old(regs[..]), old(mem.contents), offset, Flatten(args))
    {
      assert args[i..][1..] == args[i + 1..];
      WriteConcat(regs[..], mem.contents, regOffset, args[i], Flatten(args[i + 1..]));
      regOffset := WriteNextArg(regs, mem, regOffset, args[i]);
    }
  }

  /** `call_from_host` up to the call: room for the result and the stack arguments, and the arguments. */
  method PassArguments(args: seq<seq<word>>, ret: Return, regs: array<word>, mem: Mem)
    returns (buffer: word, oldSp: word)
    requires regs.Length == 16 && ValidReturn(ret)
    requires forall i :: 0 <= i < |args| ==> |args[i]| <= 16
    requires 0 <= CalleeSp(regs[SP], ret, |Flatten(args)|)
    modifies regs, mem
    ensures oldSp == BufferSp(old(regs[SP]), ret) && (ret.InMemory? ==> buffer == oldSp)
    ensures (regs[..], mem.contents) == CallerSide(old(regs[..]), old(mem.contents), args, ret)
  {
    ghost var regs0, mem0 := regs[..], mem.contents;
    var regOffset := 0;
    buffer := 0;
    if ret.InMemory? {
      regs[SP] := regs[SP] - 4 * ret.n;
      buffer := regs[SP];
      regOffset := WriteNextArg(regs, mem, regOffset, [buffer]);
      assert [buffer][1..] == [];
      assert regs[..] == regs0[SP := buffer][0 := buffer] && mem.contents == mem0;
    }
    oldSp := ExtendStackForArgs(regs, |Flatten(args)|);
    ghost var callee := CalleeSp(regs0[SP], ret, |Flatten(args)|);
    assert callee % ADDRESS_SPACE == callee;
    assert regs[..] == if ret.InMemory? then regs0[SP := callee][0 := buffer] else regs0[SP := callee];
    WriteAllArgs(args, regOffset, regs, mem);
  }

  /** `call_from_host` after the call: the stack pointer is restored and the result taken. */
  method TakeResult(ret: Return, buffer: word, oldSp: word, regs: array<word>, mem: Mem) returns (result: seq<word>)
    requires regs.Length == 16 && ValidReturn(ret)
    requires ret.InMemory? ==> buffer == oldSp && oldSp + 4 * ret.n < ADDRESS_SPACE
    modifies regs
    ensures regs[..] == old(regs[..])[SP := if ret.InMemory? then oldSp + 4 * ret.n else oldSp]
    ensures |result| == ret.n && if ret.InMemory? then HoldsWords(mem.contents, buffer, result)
                                 else result == old(regs[..])[..ret.n]
  {
    regs[SP] := oldSp;
    if ret.InMemory? {
      regs[SP] := regs[SP] + 4 * ret.n;
      result := ReadBuffer(mem, buffer, ret.n);
    } else {
      result := regs[..ret.n];
    }
  }

  /**
   `CallFromHost::call_from_host` on a host function: the function is called with exactly `args`, in the
   registers and memory that `ArgumentsArrive` describes, and its result comes back unchanged. The stack
   pointer is restored whatever the function did to it; the other callee-saved registers and all memory
   outside the return buffer are as it left them.
   */
  method CallFromHost(f: HostFunction, args: seq<seq<word>>, ret: Return, regs: array<word>, mem: Mem)
    returns (result: seq<word>)
    requires regs.Length == 16 && ValidReturn(ret) && Returns(f, ret)
    requires forall i :: 0 <= i < |args| ==> |args[i]| <= 16
    requires mem.contents.nullSegmentSize <= CalleeSp(regs[SP], ret, |Flatten(args)|)
    modifies regs, mem
    ensures var (regs', m') := CallerSide(old(regs[..]), old(mem.contents), args, ret);
            var effect, buffer := f(args, regs', m'), BufferSp(old(regs[SP]), ret);
            && result == effect.result
            && regs[SP] == old(regs[SP])
            && (forall r :: REGISTER_ARGS <= r < 16 && r != SP ==> regs[r] == effect.regs[r])
            && SameOutside(effect.memory, mem.contents, buffer, old(regs[SP]))
  {
    ghost var regs0, mem0 := regs[..], mem.contents;
    var buffer, oldSp := PassArguments(args, ret, regs, mem);
    ghost var effect := Called(f, regs[..], mem.contents, ret, Sizes(args));
    ArgumentsArrive(regs0, mem0, args, ret);
    assert effect == f(args, regs[..], mem.contents);
    CallFromGuest(f, Sizes(args), ret, regs, mem);
    result := TakeResult(ret, buffer, oldSp, regs, mem);
    if ret.InMemory? {
      StoredWords(effect.memory, buffer, effect.result);
    }
  }

  /** `from_mem` of a return value. */
  method ReadBuffer(mem: Mem, buffer: word, n: nat) returns (result: seq<word>)
    ensures |result| == n && HoldsWords(mem.contents, buffer, result)
  {
    result := [];
    for i := 0 to n
      invariant |result| == i && HoldsWords(mem.contents, buffer, result)
    {
      result := result + [WordAt(mem.contents, buffer, i)];
    }
  }
}
