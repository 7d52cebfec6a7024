/**
 The initial stack of the main thread (`src/stack.rs`): `argc`, the pointers and the strings of
 `argv`, `envp` and `apple`, serialised backwards and copied to the top of the address space.
 */
module StackImage {
  import opened GuestMemory

  const STACK_BASE := ADDRESS_SPACE
  const MAIN_THREAD_STACK_SIZE := 0x10_0000
  const SP := 13

  function Reverse<T>(s: seq<T>): seq<T> {
    if s == [] then [] else Reverse(s[1..]) + [s[0]]
  }

  lemma {:induction false} ReverseAt<T>(s: seq<T>)
    ensures |Reverse(s)| == |s|
    ensures forall i :: 0 <= i < |s| ==> Reverse(s)[i] == s[|s| - 1 - i]
  {
    if s != [] {
      ReverseAt(s[1..]);
    }
  }

  // ---------- What has to be on the stack ----------

  /** Bytes taken by the first `k` strings with their terminators. */
  function StringBytes(strings: seq<seq<byte>>, k: nat): nat
    requires k <= |strings|
  {
    if k == 0 then 0 else StringBytes(strings, k - 1) + |strings[k - 1]| + 1
  }

  /** The address of string `k`: strings are laid out downwards from the top. */
  function StringPtr(strings: seq<seq<byte>>, k: nat): int
    requires k < |strings|
  {
    STACK_BASE - StringBytes(strings, k + 1)
  }

  lemma {:induction false} StringBytesGrow(strings: seq<seq<byte>>, j: nat, k: nat)
    requires j <= k <= |strings|
    ensures StringBytes(strings, j) + (k - j) <= StringBytes(strings, k)
  {
    if j < k {
      StringBytesGrow(strings, j, k - 1);
    }
  }

  predicate SmallEnough(strings: seq<seq<byte>>) {
    StringBytes(strings, |strings|) < MAIN_THREAD_STACK_SIZE
  }

  /** The pointers to strings `from` to `to`. */
  function Pointers(strings: seq<seq<byte>>, from: nat, to: nat): (ptrs: seq<word>)
    requires from <= to <= |strings| && SmallEnough(strings)
    ensures |ptrs| == to - from
  {
    PointersInRange(strings);
    seq<word>(to - from, i requires 0 <= i < to - from => StringPtr(strings, from + i))
  }

  lemma PointersInRange(strings: seq<seq<byte>>)
    requires SmallEnough(strings)
    ensures forall k :: 0 <= k < |strings| ==> STACK_BASE - MAIN_THREAD_STACK_SIZE < StringPtr(strings, k) < STACK_BASE
  {
    forall k | 0 <= k < |strings| ensures STACK_BASE - MAIN_THREAD_STACK_SIZE < StringPtr(strings, k) < STACK_BASE {
      StringBytesGrow(strings, k + 1, |strings|);
    }
  }

  /** The words from the stack pointer upwards. */
  function StackWords(argv: seq<seq<byte>>, envp: seq<seq<byte>>, apple: seq<seq<byte>>): seq<word>
    requires SmallEnough(argv + envp + apple)
  {
    ArgumentCountFits(argv + envp + apple, |argv|);
    StackWordsOf(argv + envp + apple, |argv|, |argv| + |envp|)
  }

  /** The first `a` strings are arguments, those up to `e` the environment. */
  function StackWordsOf(strings: seq<seq<byte>>, a: word, e: nat): seq<word>
    requires SmallEnough(strings) && a <= e <= |strings|
  {
    [a] + Pointers(strings, 0, a) + Pointers(strings, a, e) + [0] + Pointers(strings, e, |strings|) + [0]
  }

  lemma ArgumentCountFits(strings: seq<seq<byte>>, k: nat)
    requires SmallEnough(strings) && k <= |strings|
    ensures k < ADDRESS_SPACE
  {
    StringBytesGrow(strings, 0, |strings|);
  }

  function Padding(n: nat): nat {
    if n % 4 != 0 then 4 - n % 4 else 0
  }

  /** The strings as they lie in memory: the last one lowest, each with its terminator. */
  function StringArea(strings: seq<seq<byte>>, k: nat): seq<byte>
    requires k <= |strings|
  {
    if k == 0 then [] else strings[k - 1] + [0] + StringArea(strings, k - 1)
  }

  function WordBytes(words: seq<word>): seq<byte> {
    if words == [] then [] else ToLittleEndian(words[0]) + WordBytes(words[1..])
  }

  /** The whole image, from the stack pointer to the top of the address space. */
  function Image(argv: seq<seq<byte>>, envp: seq<seq<byte>>, apple: seq<seq<byte>>): seq<byte>
    requires SmallEnough(argv + envp + apple)
  {
    var strings := argv + envp + apple;
    var area := StringArea(strings, |strings|);
    WordBytes(StackWords(argv, envp, apple)) + seq<byte>(Padding(|area|), _ => 0) + area
  }

  // ---------- The serialiser ----------

  /** `push_string` (src/stack.rs:59-73). */
  method PushString(s: seq<byte>, reversedBefore: seq<byte>) returns (reversed: seq<byte>, ptr: int)
    ensures Reverse(reversed) == s + [0] + Reverse(reversedBefore)
    ensures |reversed| == |reversedBefore| + |s| + 1 && ptr == STACK_BASE - |reversed|
  {
    reversed := reversedBefore + [0];
    ReverseAppend(reversedBefore, 0);
    assert [0] + Reverse(reversedBefore) == s[|s|..] + [0] + Reverse(reversedBefore);
    var i := |s|;
    while i > 0
      invariant 0 <= i <= |s| && |reversed| == |reversedBefore| + 1 + (|s| - i)
      invariant Reverse(reversed) == s[i..] + [0] + Reverse(reversedBefore)
    {
      i := i - 1;
      ReverseAppend(reversed, s[i]);
      assert s[i..] == [s[i]] + s[i + 1..];
      reversed := reversed + [s[i]];
    }
    assert s[0..] == s;
    ptr := STACK_BASE - |reversed|;
  }

  lemma ReverseAppend<T>(s: seq<T>, x: T)
    ensures Reverse(s + [x]) == [x] + Reverse(s)
  {
    ReverseAt(s);
    ReverseAt(s + [x]);
  }

  lemma ReverseConcat<T>(s: seq<T>, t: seq<T>)
    ensures Reverse(s + t) == Reverse(t) + Reverse(s)
  {
    ReverseAt(s);
    ReverseAt(t);
    ReverseAt(s + t);
  }

  lemma {:induction false} AreaSize(strings: seq<seq<byte>>, k: nat)
    requires k <= |strings|
    ensures |StringArea(strings, k)| == StringBytes(strings, k)
  {
    if k > 0 {
      AreaSize(strings, k - 1);
    }
  }

  /** Pushing strings `from` to `to` (src/stack.rs:76-87). */
  method PushStrings(strings: seq<seq<byte>>, from: nat, to: nat, reversedBefore: seq<byte>, ptrsBefore: seq<word>)
    returns (reversed: seq<byte>, ptrs: seq<word>)
    requires from <= to <= |strings| && SmallEnough(strings)
    requires Reverse(reversedBefore) == StringArea(strings, from) && |reversedBefore| == StringBytes(strings, from)
    ensures Reverse(reversed) == StringArea(strings, to) && |reversed| == StringBytes(strings, to)
    ensures ptrs == ptrsBefore + Pointers(strings, from, to)
  {
    reversed, ptrs := reversedBefore, ptrsBefore;
    PointersInRange(strings);
    for k := from to to
      invariant Reverse(reversed) == StringArea(strings, k) && |reversed| == StringBytes(strings, k)
      invariant ptrs == ptrsBefore + Pointers(strings, from, k)
    {
      var ptr;
      reversed, ptr := PushString(strings[k], reversed);
      assert ptr == StringPtr(strings, k);
      assert Pointers(strings, from, k + 1) == Pointers(strings, from, k) + [ptr];
      ptrs := ptrs + [ptr];
    }
  }

  /** `u32::to_be_bytes`. */
  function BigEndianBytes(w: word): seq<byte> {
    [w / 0x100_0000, w / 0x1_0000 % 0x100, w / 0x100 % 0x100, w % 0x100]
  }

  lemma BigEndianReversed(w: word)
    ensures Reverse(BigEndianBytes(w)) == ToLittleEndian(w)
  {
    ReverseAt(BigEndianBytes(w));
  }

  /** The words, last one first, as big-endian bytes (src/stack.rs:99-101). */
  method PushWords(words: seq<word>, reversedBefore: seq<byte>) returns (reversed: seq<byte>)
    ensures Reverse(reversed) == WordBytes(words) + Reverse(reversedBefore)
    ensures |reversed| == |reversedBefore| + 4 * |words|
  {
    reversed := reversedBefore;
    var i := |words|;
    assert words[i..] == [];
    while i > 0
      invariant 0 <= i <= |words| && |reversed| == |reversedBefore| + 4 * (|words| - i)
      invariant Reverse(reversed) == WordBytes(words[i..]) + Reverse(reversedBefore)
    {
      i := i - 1;
      BigEndianReversed(words[i]);
      ReverseConcat(reversed, BigEndianBytes(words[i]));
      assert words[i..][1..] == words[i + 1..];
      reversed := reversed + BigEndianBytes(words[i]);
    }
    assert words[0..] == words;
  }

  /** Copying the reversed data into memory, forwards (src/stack.rs:109-113). */
  method CopyReversed(mem: Mem, start: nat, reversed: seq<byte>)
    modifies mem
    ensures mem.contents == old(mem.contents).(bytes := StoreBytes(old(mem.contents).bytes, start, Reverse(reversed)))
  {
    ReverseAt(reversed);
    ghost var image := Reverse(reversed);
    for i := 0 to |reversed|
      invariant mem.contents == old(mem.contents).(bytes := StoreBytes(old(mem.contents).bytes, start, image[..i]))
    {
      StoreBytesConcat(old(mem.contents).bytes, start, image[..i], [image[i]]);
      assert image[..i + 1] == image[..i] + [image[i]];
      mem.StoreByte(start + i, reversed[|reversed| - i - 1]);
    }
    assert image[..|image|] == image;
  }

  /** How high the stack image is. */
  function Height(argv: seq<seq<byte>>, envp: seq<seq<byte>>, apple: seq<seq<byte>>): nat {
    var n := StringBytes(argv + envp + apple, |argv + envp + apple|);
    4 * (|argv| + |envp| + |apple| + 3) + Padding(n) + n
  }

  /** Everything that goes on the stack, backwards (src/stack.rs:74-101). */
  method SerialiseStack(argv: seq<seq<byte>>, envp: seq<seq<byte>>, apple: seq<seq<byte>>) returns (reversed: seq<byte>)
    requires SmallEnough(argv + envp + apple)
    ensures Reverse(reversed) == Image(argv, envp, apple) && |reversed| == Height(argv, envp, apple)
  {
    var strings := argv + envp + apple;
    ArgumentCountFits(strings, |argv|);
    var ptrs;
    reversed, ptrs := PushStrings(strings, 0, |argv|, [], [|argv|]);
    reversed, ptrs := PushStrings(strings, |argv|, |argv| + |envp|, reversed, ptrs);
    ptrs := ptrs + [0];
    reversed, ptrs := PushStrings(strings, |argv| + |envp|, |strings|, reversed, ptrs);
    ptrs := ptrs + [0];
    assert ptrs == StackWords(argv, envp, apple);
    AreaSize(strings, |strings|);
    var padding := seq<byte>(Padding(|reversed|), _ => 0);
    ReverseConcat(reversed, padding);
    ReverseAt(padding);
    assert Reverse(padding) == padding;
    reversed := PushWords(ptrs, reversed + padding);
  }

  /** The stack in memory, and where it starts (src/stack.rs:74-113). */
  method WriteStack(mem: Mem, argv: seq<seq<byte>>, envp: seq<seq<byte>>, apple: seq<seq<byte>>) returns (sp: word)
    requires Height(argv, envp, apple) < MAIN_THREAD_STACK_SIZE
    requires mem.contents.nullSegmentSize <= STACK_BASE - MAIN_THREAD_STACK_SIZE
    modifies mem
    ensures mem.contents == WithImage(old(mem.contents), argv, envp, apple)
    ensures sp == STACK_BASE - Height(argv, envp, apple) && IsStack(mem.contents, sp, argv, envp, apple)
    ensures forall b: nat :: !(sp <= b < STACK_BASE) ==> mem.contents.Byte(b) == old(mem.contents).Byte(b)
  {
    StackIsLaidOut(mem.contents, argv, envp, apple);
    ImageBytes(mem.contents, argv, envp, apple);
    var reversed := SerialiseStack(argv, envp, apple);
    sp := STACK_BASE - |reversed|;
    CopyReversed(mem, sp, reversed);
  }

  /** `prep_stack_for_start`; the height must stay below the main thread's stack size. */
  method PrepStackForStart(mem: Mem, regs: array<word>, argv: seq<seq<byte>>, envp: seq<seq<byte>>,
                           apple: seq<seq<byte>>,
                           passArgsInRegisters: bool)
    requires regs.Length == 16 && Height(argv, envp, apple) < MAIN_THREAD_STACK_SIZE
    requires mem.contents.nullSegmentSize <= STACK_BASE - MAIN_THREAD_STACK_SIZE
    modifies mem, regs
    ensures mem.contents == WithImage(old(mem.contents), argv, envp, apple)
    ensures regs[SP] == STACK_BASE - Height(argv, envp, apple)
    ensures IsStack(mem.contents, regs[SP], argv, envp, apple)
    ensures forall b: nat :: !(regs[SP] <= b < STACK_BASE) ==> mem.contents.Byte(b) == old(mem.contents).Byte(b)
    ensures passArgsInRegisters ==> regs[0] == |argv| && regs[1] == regs[SP] + 4
    ensures passArgsInRegisters ==> regs[2] == (regs[SP] + 4 * (|argv| + 2)) % ADDRESS_SPACE
    ensures passArgsInRegisters ==> regs[3] == (regs[SP] + 4 * (|argv| + |envp| + 3)) % ADDRESS_SPACE
    ensures forall r :: 0 <= r < 16 && r != SP && !(passArgsInRegisters && r < 4) ==> regs[r] == old(regs[r])
  {
    var sp := WriteStack(mem, argv, envp, apple);
    regs[SP] := sp;
    if passArgsInRegisters {
      SetArguments(regs, sp, |argv|, |envp|);
    }
  }

  /** The registers that hand `main` its arguments (src/stack.rs:137-149). */
  method SetArguments(regs: array<word>, sp: word, argc: word, envc: nat)
    requires regs.Length == 16 && sp + 4 < ADDRESS_SPACE
    modifies regs
    ensures regs[0] == argc && regs[1] == sp + 4
    ensures regs[2] == (sp + 4 * (argc + 2)) % ADDRESS_SPACE
    ensures regs[3] == (sp + 4 * (argc + envc + 3)) % ADDRESS_SPACE
    ensures forall r :: 4 <= r < 16 ==> regs[r] == old(regs[r])
  {
    var argvPtr := sp + 4;
    var envpPtr := argvPtr + 4 * (argc + 1);
    var applePtr := envpPtr + 4 * (envc + 1);
    regs[0], regs[1], regs[2], regs[3] := argc, argvPtr, envpPtr % ADDRESS_SPACE, applePtr % ADDRESS_SPACE;
  }

  // ---------- Reading the image back ----------

  /** The `n` bytes at `a` are `s`. */
  ghost predicate HoldsBytes(m: Memory, a: nat, s: seq<byte>) {
    forall i :: 0 <= i < |s| ==> m.Byte(a + i) == s[i]
  }

  lemma {:induction false} WordBytesAt(words: seq<word>, j: nat)
    requires j < |words|
    ensures |WordBytes(words)| == 4 * |words|
    ensures WordBytes(words)[4 * j..4 * j + 4] == ToLittleEndian(words[j])
  {
    WordBytesSize(words);
    if j > 0 {
      WordBytesAt(words[1..], j - 1);
      var rest := WordBytes(words[1..]);
      assert WordBytes(words)[4 * j..4 * j + 4] == rest[4 * (j - 1)..4 * (j - 1) + 4];
    }
  }

  lemma {:induction false} WordBytesSize(words: seq<word>)
    ensures |WordBytes(words)| == 4 * |words|
  {
    if words != [] {
      WordBytesSize(words[1..]);
    }
  }

  /** String `k`, with its terminator, at its distance from the top of the area. */
  lemma {:induction false} AreaAt(strings: seq<seq<byte>>, n: nat, k: nat)
    requires k < n <= |strings|
    ensures |StringArea(strings, n)| == StringBytes(strings, n)
    ensures StringBytes(strings, k + 1) <= StringBytes(strings, n)
    ensures var at := StringBytes(strings, n) - StringBytes(strings, k + 1);
            at + |strings[k]| + 1 <= StringBytes(strings, n)
            && StringArea(strings, n)[at..at + |strings[k]| + 1] == strings[k] + [0]
  {
    AreaSize(strings, n);
    AreaSize(strings, n - 1);
    StringBytesGrow(strings, k + 1, n);
    if k < n - 1 {
      AreaAt(strings, n - 1, k);
      var at := StringBytes(strings, n - 1) - StringBytes(strings, k + 1);
      var first := strings[n - 1] + [0];
      assert StringArea(strings, n) == first + StringArea(strings, n - 1);
      var len := |strings[k]| + 1;
      assert StringArea(strings, n)[|first| + at..|first| + at + len] == StringArea(strings, n - 1)[at..at + len];
    }
  }

  lemma HeightIsAligned(argv: seq<seq<byte>>, envp: seq<seq<byte>>, apple: seq<seq<byte>>)
    ensures Height(argv, envp, apple) % 4 == 0
  {
  }

  lemma ImageSize(argv: seq<seq<byte>>, envp: seq<seq<byte>>, apple: seq<seq<byte>>)
    requires SmallEnough(argv + envp + apple)
    ensures |Image(argv, envp, apple)| == Height(argv, envp, apple)
    ensures |StackWords(argv, envp, apple)| == |argv| + |envp| + |apple| + 3
  {
    var strings := argv + envp + apple;
    AreaSize(strings, |strings|);
    WordBytesSize(StackWords(argv, envp, apple));
  }

  /** The memory that `PrepStackForStart` leaves behind. */
  function WithImage(m: Memory, argv: seq<seq<byte>>, envp: seq<seq<byte>>, apple: seq<seq<byte>>): Memory
    requires Height(argv, envp, apple) < MAIN_THREAD_STACK_SIZE
  {
    m.(bytes := StoreBytes(m.bytes, STACK_BASE - Height(argv, envp, apple), Image(argv, envp, apple)))
  }

  lemma ImageBytes(m: Memory, argv: seq<seq<byte>>, envp: seq<seq<byte>>, apple: seq<seq<byte>>)
    requires Height(argv, envp, apple) < MAIN_THREAD_STACK_SIZE
    ensures var (m', sp) := (WithImage(m, argv, envp, apple), STACK_BASE - Height(argv, envp, apple));
            && HoldsBytes(m', sp, Image(argv, envp, apple))
            && forall a: nat :: !(sp <= a < STACK_BASE) ==> m'.Byte(a) == m.Byte(a)
  {
    ImageSize(argv, envp, apple);
    StoredBytes(m.bytes, STACK_BASE - Height(argv, envp, apple), Image(argv, envp, apple));
  }

  lemma WordFromBytes(m: Memory, a: nat, w: word)
    requires m.nullSegmentSize <= a && HoldsBytes(m, a, ToLittleEndian(w))
    ensures m.Read(a) == w
  {
    assert m.Bytes(a, 4) == ToLittleEndian(w);
    LittleEndianRoundTrip(w);
  }

  lemma WordsFromBytes(m: Memory, a: nat, words: seq<word>)
    requires m.nullSegmentSize <= a && HoldsBytes(m, a, WordBytes(words))
    ensures HoldsWords(m, a, words)
  {
    var bytes := WordBytes(words);
    forall j | 0 <= j < |words| ensures WordAt(m, a, j) == words[j] {
      WordBytesAt(words, j);
      forall i | 0 <= i < 4 ensures m.Byte(a + 4 * j + i) == ToLittleEndian(words[j])[i] {
        assert bytes[4 * j..4 * j + 4][i] == bytes[4 * j + i];
        assert m.Byte(a + (4 * j + i)) == bytes[4 * j + i];
      }
      WordFromBytes(m, a + 4 * j, words[j]);
    }
  }

  lemma HoldsPrefix(m: Memory, a: nat, s: seq<byte>, t: seq<byte>)
    requires HoldsBytes(m, a, s + t)
    ensures HoldsBytes(m, a, s)
  {
    forall i | 0 <= i < |s| ensures m.Byte(a + i) == s[i] {
      assert (s + t)[i] == s[i];
    }
  }

  /** The words from the stack pointer upwards read back as `StackWords`. */
  lemma ImageWords(m: Memory, argv: seq<seq<byte>>, envp: seq<seq<byte>>, apple: seq<seq<byte>>)
    requires Height(argv, envp, apple) < MAIN_THREAD_STACK_SIZE
    requires m.nullSegmentSize <= STACK_BASE - MAIN_THREAD_STACK_SIZE
    ensures HoldsWords(WithImage(m, argv, envp, apple), STACK_BASE - Height(argv, envp, apple),
                       StackWords(argv, envp, apple))
  {
    var words := StackWords(argv, envp, apple);
    ImageBytes(m, argv, envp, apple);
    var strings := argv + envp + apple;
    var area := StringArea(strings, |strings|);
    assert Image(argv, envp, apple) == WordBytes(words) + (seq<byte>(Padding(|area|), _ => 0) + area);
    HoldsPrefix(WithImage(m, argv, envp, apple), STACK_BASE - Height(argv, envp, apple), WordBytes(words),
                seq<byte>(Padding(|area|), _ => 0) + area);
    WordsFromBytes(WithImage(m, argv, envp, apple), STACK_BASE - Height(argv, envp, apple), words);
  }

  /** Each pointer addresses its string, terminator included. */
  lemma ImageStrings(m: Memory, argv: seq<seq<byte>>, envp: seq<seq<byte>>, apple: seq<seq<byte>>, k: nat)
    requires Height(argv, envp, apple) < MAIN_THREAD_STACK_SIZE && k < |argv + envp + apple|
    ensures var strings := argv + envp + apple;
            && STACK_BASE - Height(argv, envp, apple) <= StringPtr(strings, k)
            && HoldsBytes(WithImage(m, argv, envp, apple), StringPtr(strings, k), strings[k] + [0])
  {
    var strings := argv + envp + apple;
    var n := |strings|;
    var area, words := StringArea(strings, n), WordBytes(StackWords(argv, envp, apple));
    var front := words + seq<byte>(Padding(|area|), _ => 0);
    var m', sp := WithImage(m, argv, envp, apple), STACK_BASE - Height(argv, envp, apple);
    ImageSize(argv, envp, apple);
    ImageBytes(m, argv, envp, apple);
    AreaAt(strings, n, k);
    assert Image(argv, envp, apple) == front + area;
    HoldsSuffix(m', sp, front, area);
    var at := StringBytes(strings, n) - StringBytes(strings, k + 1);
    HoldsSlice(m', sp + |front|, area, at, at + |strings[k]| + 1);
  }

  lemma HoldsSuffix(m: Memory, a: nat, s: seq<byte>, t: seq<byte>)
    requires HoldsBytes(m, a, s + t)
    ensures HoldsBytes(m, a + |s|, t)
  {
    forall i | 0 <= i < |t| ensures m.Byte(a + |s| + i) == t[i] {
      assert m.Byte(a + (|s| + i)) == (s + t)[|s| + i];
    }
  }

  lemma HoldsSlice(m: Memory, a: nat, s: seq<byte>, from: nat, to: nat)
    requires HoldsBytes(m, a, s) && from <= to <= |s|
    ensures HoldsBytes(m, a + from, s[from..to])
  {
    forall i | 0 <= i < to - from ensures m.Byte(a + from + i) == s[from..to][i] {
      assert m.Byte(a + (from + i)) == s[from + i];
    }
  }

  /** The C string at `a`, if it ends before the top of the address space. */
  function CString(m: Memory, a: nat): seq<byte>
    decreases STACK_BASE - a
  {
    if a >= STACK_BASE || m.Byte(a) == 0 then [] else [m.Byte(a)] + CString(m, a + 1)
  }

  lemma {:induction false} CStringIs(m: Memory, a: nat, s: seq<byte>)
    requires HoldsBytes(m, a, s + [0]) && a + |s| < STACK_BASE
    ensures CString(m, a) == s <==> 0 !in s
    decreases s
  {
    assert m.Byte(a + 0) == (s + [0])[0];
    if s != [] {
      assert forall i :: 0 <= i < |s[1..] + [0]| ==> (s[1..] + [0])[i] == (s + [0])[i + 1];
      forall i | 0 <= i < |s[1..] + [0]| ensures m.Byte(a + 1 + i) == (s[1..] + [0])[i] {
        assert m.Byte(a + (i + 1)) == (s + [0])[i + 1];
      }
      CStringIs(m, a + 1, s[1..]);
      assert s == [s[0]] + s[1..];
    }
  }

  /**
   The serialiser is faithful: the stack pointer is word-aligned, the words from it upwards are argc and
   the pointers, every pointer yields its string (as a C string exactly if the string has no NUL), and
   nothing outside [SP, 2^32) is written.
   */
  lemma StackIsFaithful(m: Memory, argv: seq<seq<byte>>, envp: seq<seq<byte>>, apple: seq<seq<byte>>)
    requires Height(argv, envp, apple) < MAIN_THREAD_STACK_SIZE
    requires m.nullSegmentSize <= STACK_BASE - MAIN_THREAD_STACK_SIZE
    ensures var (m', sp) := (WithImage(m, argv, envp, apple), STACK_BASE - Height(argv, envp, apple));
            var strings := argv + envp + apple;
            && sp % 4 == 0
            && HoldsWords(m', sp, StackWords(argv, envp, apple))
            && (forall k :: 0 <= k < |strings| ==> (
                  && StringPtr(strings, k) >= sp
                  && HoldsBytes(m', StringPtr(strings, k), strings[k] + [0])
                  && (CString(m', StringPtr(strings, k)) == strings[k] <==> 0 !in strings[k])))
            && forall a: nat :: !(sp <= a < STACK_BASE) ==> m'.Byte(a) == m.Byte(a)
  {
    HeightIsAligned(argv, envp, apple);
    ImageBytes(m, argv, envp, apple);
    ImageWords(m, argv, envp, apple);
    var strings, m' := argv + envp + apple, WithImage(m, argv, envp, apple);
    forall k | 0 <= k < |strings|
      ensures StringPtr(strings, k) >= STACK_BASE - Height(argv, envp, apple)
              && HoldsBytes(m', StringPtr(strings, k), strings[k] + [0])
              && (CString(m', StringPtr(strings, k)) == strings[k] <==> 0 !in strings[k])
    {
      ImageStrings(m, argv, envp, apple, k);
      CStringIs(m', StringPtr(strings, k), strings[k]);
    }
  }

  /** The words at `at` are the addresses of these strings, each followed by a zero byte. */
  ghost predicate PointsAt(m: Memory, at: nat, strings: seq<seq<byte>>) {
    forall k :: 0 <= k < |strings| ==> HoldsBytes(m, WordAt(m, at, k), strings[k] + [0])
  }

  /** Every string lies where its pointer says. */
  ghost predicate StringsInPlace(m: Memory, strings: seq<seq<byte>>) {
    forall k :: 0 <= k < |strings| ==>
      StringPtr(strings, k) >= 0 && HoldsBytes(m, StringPtr(strings, k), strings[k] + [0])
  }

  function Terminated(strings: seq<seq<byte>>): seq<byte> {
    if strings == [] then [] else strings[0] + [0] + Terminated(strings[1..])
  }

  /**
   The stack, word by word: the number of arguments, the arguments, the environment, a zero, the other strings, a
   zero.
   */
  ghost predicate HoldsLists(m: Memory, sp: nat, argv: seq<seq<byte>>, envp: seq<seq<byte>>, apple: seq<seq<byte>>) {
    var (a, e, n) := (|argv|, |argv| + |envp|, |argv| + |envp| + |apple|);
    && m.Read(sp) == a
    && PointsAt(m, sp + 4, argv) && PointsAt(m, sp + 4 + 4 * a, envp) && m.Read(sp + 4 + 4 * e) == 0
    && PointsAt(m, sp + 8 + 4 * e, apple) && m.Read(sp + 8 + 4 * n) == 0
  }

  /** The stack is aligned, and no lower than `n` words and the strings behind them demand. */
  predicate IsTight(sp: nat, n: nat, strings: seq<seq<byte>>) {
    && sp % 4 == 0
    && sp + 4 * n + |Terminated(strings)| <= STACK_BASE < sp + 4 * n + |Terminated(strings)| + 4
  }

  ghost predicate IsStack(m: Memory, sp: nat, argv: seq<seq<byte>>, envp: seq<seq<byte>>, apple: seq<seq<byte>>) {
    HoldsLists(m, sp, argv, envp, apple) && IsTight(sp, |argv| + |envp| + |apple| + 3, argv + envp + apple)
  }

  lemma {:induction false} TerminatedConcat(strings: seq<seq<byte>>, more: seq<seq<byte>>)
    ensures Terminated(strings + more) == Terminated(strings) + Terminated(more)
    decreases strings
  {
    if strings == [] {
      assert strings + more == more;
    } else {
      assert (strings + more)[1..] == strings[1..] + more;
      TerminatedConcat(strings[1..], more);
    }
  }

  lemma {:induction false} TerminatedSize(strings: seq<seq<byte>>, k: nat)
    requires k <= |strings|
    ensures StringBytes(strings, k) == |Terminated(strings[..k])|
  {
    if k > 0 {
      TerminatedSize(strings, k - 1);
      assert strings[..k] == strings[..k - 1] + [strings[k - 1]];
      TerminatedConcat(strings[..k - 1], [strings[k - 1]]);
      assert Terminated([strings[k - 1]]) == strings[k - 1] + [0] + Terminated([strings[k - 1]][1..]);
    }
  }

  /** Pointers `from` to `to` lie in order from word `first` on, so those words point at these strings. */
  lemma PointersPoint(m: Memory, sp: nat, words: seq<word>, first: nat, strings: seq<seq<byte>>, from: nat, to: nat)
    requires SmallEnough(strings) && from <= to <= |strings|
    requires HoldsWords(m, sp, words) && first + (to - from) <= |words|
    requires words[first..first + (to - from)] == Pointers(strings, from, to)
    requires StringsInPlace(m, strings)
    ensures PointsAt(m, sp + 4 * first, strings[from..to])
  {
    forall k | 0 <= k < to - from
      ensures HoldsBytes(m, WordAt(m, sp + 4 * first, k), strings[from..to][k] + [0])
    {
      assert words[first..first + (to - from)][k] == words[first + k] == StringPtr(strings, from + k);
      assert WordAt(m, sp, first + k) == words[first + k];
    }
  }

  lemma WordPlaces(strings: seq<seq<byte>>, a: word, e: nat)
    requires SmallEnough(strings) && a <= e <= |strings|
    ensures var (words, n) := (StackWordsOf(strings, a, e), |strings|);
            && |words| == n + 3 && words[0] == a && words[1 + e] == 0 && words[2 + n] == 0
            && words[1..1 + a] == Pointers(strings, 0, a) && words[1 + a..1 + e] == Pointers(strings, a, e)
            && words[2 + e..2 + n] == Pointers(strings, e, n)
  {
  }

  lemma ImageStringsInPlace(m: Memory, argv: seq<seq<byte>>, envp: seq<seq<byte>>, apple: seq<seq<byte>>)
    requires Height(argv, envp, apple) < MAIN_THREAD_STACK_SIZE
    ensures StringsInPlace(WithImage(m, argv, envp, apple), argv + envp + apple)
  {
    forall k | 0 <= k < |argv + envp + apple|
      ensures var strings := argv + envp + apple;
              && StringPtr(strings, k) >= 0
              && HoldsBytes(WithImage(m, argv, envp, apple), StringPtr(strings, k), strings[k] + [0])
    {
      ImageStrings(m, argv, envp, apple, k);
    }
  }

  lemma StackIsTight(argv: seq<seq<byte>>, envp: seq<seq<byte>>, apple: seq<seq<byte>>)
    requires Height(argv, envp, apple) < MAIN_THREAD_STACK_SIZE
    ensures IsTight(STACK_BASE - Height(argv, envp, apple), |argv| + |envp| + |apple| + 3, argv + envp + apple)
  {
    var strings := argv + envp + apple;
    TerminatedSize(strings, |strings|);
    assert strings[..|strings|] == strings;
  }

  lemma ListsInPlace(m: Memory, sp: nat, argv: seq<seq<byte>>, envp: seq<seq<byte>>, apple: seq<seq<byte>>)
    requires SmallEnough(argv + envp + apple) && HoldsWords(m, sp, StackWords(argv, envp, apple))
    requires StringsInPlace(m, argv + envp + apple)
    ensures HoldsLists(m, sp, argv, envp, apple)
  {
    var strings := argv + envp + apple;
    ArgumentCountFits(strings, |argv|);
    WordsPoint(m, sp, strings, |argv|, |argv| + |envp|);
    assert strings[0..|argv|] == argv && strings[|argv|..|argv| + |envp|] == envp;
    assert strings[|argv| + |envp|..|strings|] == apple;
  }

  /** What `prep_stack_for_start` is for: whatever the strings, the program finds them where they belong. */
  lemma StackIsLaidOut(m: Memory, argv: seq<seq<byte>>, envp: seq<seq<byte>>, apple: seq<seq<byte>>)
    requires Height(argv, envp, apple) < MAIN_THREAD_STACK_SIZE
    requires m.nullSegmentSize <= STACK_BASE - MAIN_THREAD_STACK_SIZE
    ensures IsStack(WithImage(m, argv, envp, apple), STACK_BASE - Height(argv, envp, apple), argv, envp, apple)
  {
    ImageWords(m, argv, envp, apple);
    ImageStringsInPlace(m, argv, envp, apple);
    ListsInPlace(WithImage(m, argv, envp, apple), STACK_BASE - Height(argv, envp, apple), argv, envp, apple);
    StackIsTight(argv, envp, apple);
  }

  lemma WordsPoint(m: Memory, sp: nat, strings: seq<seq<byte>>, a: word, e: nat)
    requires SmallEnough(strings) && a <= e <= |strings| && HoldsWords(m, sp, StackWordsOf(strings, a, e))
    requires StringsInPlace(m, strings)
    ensures m.Read(sp) == a && m.Read(sp + 4 + 4 * e) == 0 && m.Read(sp + 8 + 4 * |strings|) == 0
    ensures PointsAt(m, sp + 4, strings[0..a]) && PointsAt(m, sp + 4 + 4 * a, strings[a..e])
    ensures PointsAt(m, sp + 8 + 4 * e, strings[e..|strings|])
  {
    var words, n := StackWordsOf(strings, a, e), |strings|;
    WordPlaces(strings, a, e);
    PointersPoint(m, sp, words, 1, strings, 0, a);
    PointersPoint(m, sp, words, 1 + a, strings, a, e);
    PointersPoint(m, sp, words, 2 + e, strings, e, n);
    assert WordAt(m, sp, 0) == a && WordAt(m, sp, 1 + e) == 0 && WordAt(m, sp, 2 + n) == 0;
  }

  /**
   The comments promise a NULL after `argv`; the word there is the first `envp` pointer instead, so
   `argv` is NULL-terminated exactly when `envp` is empty.
   */
  lemma ArgvTermination(argv: seq<seq<byte>>, envp: seq<seq<byte>>, apple: seq<seq<byte>>)
    requires SmallEnough(argv + envp + apple)
    ensures StackWords(argv, envp, apple)[1 + |argv|] == 0 <==> envp == []
  {
    PointersInRange(argv + envp + apple);
    var words, ptrs := StackWords(argv, envp, apple), Pointers(argv + envp + apple, |argv|, |argv| + |envp|);
    if envp != [] {
      assert words[1 + |argv|] == ptrs[0];
    }
  }

  /** The pointers a program finds from word `i` on, up to the first zero. */
  function ListAt(words: seq<word>, i: nat): seq<word>
    decreases |words| - i
  {
    if i >= |words| || words[i] == 0 then [] else [words[i]] + ListAt(words, i + 1)
  }

  ghost predicate NoneZero(words: seq<word>) {
    forall k :: 0 <= k < |words| ==> words[k] != 0
  }

  lemma {:induction false} ListAfter(front: seq<word>, list: seq<word>, rest: seq<word>, at: nat)
    requires NoneZero(list) && at == |front| && (rest != [] ==> rest[0] == 0)
    ensures ListAt(front + list + rest, at) == list
    decreases |list|
  {
    var words := front + list + rest;
    if list == [] {
      assert words == front + rest;
    } else {
      assert words == (front + [list[0]]) + list[1..] + rest;
      ListAfter(front + [list[0]], list[1..], rest, at + 1);
      assert words[at] == list[0];
    }
  }

  lemma PointersAreNotZero(strings: seq<seq<byte>>, from: nat, to: nat)
    requires from <= to <= |strings| && SmallEnough(strings)
    ensures NoneZero(Pointers(strings, from, to))
  {
    PointersInRange(strings);
  }

  lemma ListsShifted(words: seq<word>, argc: word, argv: seq<word>, envp: seq<word>, apple: seq<word>, a: nat, e: nat)
    requires NoneZero(argv) && NoneZero(envp) && NoneZero(apple)
    requires words == [argc] + argv + envp + [0] + apple + [0] && a == |argv| && e == |argv| + |envp|
    ensures ListAt(words, 1) == argv + envp
    ensures ListAt(words, a + 2) == if envp != [] then envp[1..] else apple
    ensures ListAt(words, e + 3) == if apple != [] then apple[1..] else []
  {
    assert words == [argc] + (argv + envp) + ([0] + apple + [0]);
    ListAfter([argc], argv + envp, [0] + apple + [0], 1);
    SecondListShifted(words, argc, argv, envp, apple);
    if apple != [] {
      assert words == ([argc] + argv + envp + [0, apple[0]]) + apple[1..] + [0];
      ListAfter([argc] + argv + envp + [0, apple[0]], apple[1..], [0], e + 3);
    }
  }

  lemma SecondListShifted(words: seq<word>, argc: word, argv: seq<word>, envp: seq<word>, apple: seq<word>)
    requires NoneZero(argv) && NoneZero(envp) && NoneZero(apple)
    requires words == [argc] + argv + envp + [0] + apple + [0]
    ensures ListAt(words, |argv| + 2) == if envp != [] then envp[1..] else apple
  {
    if envp != [] {
      assert words == ([argc] + argv + [envp[0]]) + envp[1..] + ([0] + apple + [0]);
      ListAfter([argc] + argv + [envp[0]], envp[1..], [0] + apple + [0], |argv| + 2);
    } else {
      assert words == ([argc] + argv + [0]) + apple + [0];
      ListAfter([argc] + argv + [0], apple, [0], |argv| + 2);
    }
  }

  /** What the lists from words 1, `a + 2` and `e + 3` on are. */
  ghost predicate ListsAreShifted(words: seq<word>, strings: seq<seq<byte>>, a: nat, e: nat)
    requires SmallEnough(strings) && a <= e <= |strings|
  {
    var (argvPtrs, envpPtrs, applePtrs) :=
      (Pointers(strings, 0, a), Pointers(strings, a, e), Pointers(strings, e, |strings|));
    && ListAt(words, 1) == argvPtrs + envpPtrs
    && ListAt(words, a + 2) == (if a < e then envpPtrs[1..] else applePtrs)
    && ListAt(words, e + 3) == (if e < |strings| then applePtrs[1..] else [])
  }

  /**
   What `main` finds through r1, r2 and r3 (words 1, |argv| + 2 and |argv| + |envp| + 3): the argument
   list runs on into the environment, and the two lists after it lack their first entry (or, when the
   environment is empty, its list is the one of the `apple` strings).
   */
  lemma MainSeesShiftedLists(argv: seq<seq<byte>>, envp: seq<seq<byte>>, apple: seq<seq<byte>>)
    requires SmallEnough(argv + envp + apple)
    ensures ListsAreShifted(StackWords(argv, envp, apple), argv + envp + apple, |argv|, |argv| + |envp|)
  {
    ArgumentCountFits(argv + envp + apple, |argv|);
    ListsOnStack(StackWords(argv, envp, apple), argv + envp + apple, |argv|, |argv| + |envp|);
  }

  lemma ListsOnStack(words: seq<word>, strings: seq<seq<byte>>, a: word, e: nat)
    requires SmallEnough(strings) && a <= e <= |strings| && words == StackWordsOf(strings, a, e)
    ensures ListsAreShifted(words, strings, a, e)
  {
    var argvPtrs, envpPtrs, applePtrs := Pointers(strings, 0, a), Pointers(strings, a, e),
        Pointers(strings, e, |strings|);
    PointersAreNotZero(strings, 0, a);
    PointersAreNotZero(strings, a, e);
    PointersAreNotZero(strings, e, |strings|);
    ListsShifted(words, a, argvPtrs, envpPtrs, applePtrs, a, e);
  }
}
