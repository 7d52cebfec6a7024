/**
 Guest memory (`src/mem.rs`): a byte-addressed space whose unwritten bytes are zero, and whose
 null segment reads as zero and swallows writes. Words are little-endian.
 */
module GuestMemory {

  type byte = b: int | 0 <= b < 0x100
  type word = w: int | 0 <= w < 0x1_0000_0000

  const ADDRESS_SPACE := 0x1_0000_0000

  // ---------- Little-endian values ----------

  function FromLittleEndian(s: seq<byte>): nat {
    if s == [] then 0 else s[0] + 0x100 * FromLittleEndian(s[1..])
  }

  function ToLittleEndian(v: word): (s: seq<byte>)
    ensures |s| == 4
  {
    [v % 0x100, v / 0x100 % 0x100, v / 0x1_0000 % 0x100, v / 0x100_0000]
  }

  lemma FromFourBytes(s: seq<byte>)
    requires |s| == 4
    ensures FromLittleEndian(s) == s[0] + 0x100 * (s[1] as int) + 0x1_0000 * (s[2] as int) + 0x100_0000 * (s[3] as int)
    ensures FromLittleEndian(s) < ADDRESS_SPACE
  {
    assert s[1..][1..] == s[2..] && s[2..][1..] == s[3..] && s[3..][1..] == [];
    assert FromLittleEndian(s[3..]) == s[3];
    assert FromLittleEndian(s[2..]) == s[2] + 0x100 * (s[3] as int);
  }

  lemma LittleEndianRoundTrip(v: word)
    ensures FromLittleEndian(ToLittleEndian(v)) == v
  {
    FromFourBytes(ToLittleEndian(v));
    FourBytesOf(v, v / 0x100, v / 0x1_0000, v / 0x100_0000);
  }

  lemma FourBytesOf(v: word, a: nat, b: nat, c: nat)
    requires a == v / 0x100 && b == v / 0x1_0000 && c == v / 0x100_0000
    ensures v == v % 0x100 + 0x100 * (a % 0x100) + 0x1_0000 * (b % 0x100) + 0x100_0000 * c
  {
    assert v == 0x100 * a + v % 0x100;
    assert b == a / 0x100 && a == 0x100 * b + a % 0x100;
    assert c == b / 0x100 && b == 0x100 * c + b % 0x100;
  }

  // ---------- Memory ----------

  datatype Memory = Memory(bytes: map<nat, byte>, nullSegmentSize: nat)
  {
    function Byte(a: nat): byte {
      if a in bytes then bytes[a] else 0
    }

    function Bytes(a: nat, n: nat): seq<byte> {
      seq<byte>(n, i requires 0 <= i < n => Byte(a + i))
    }

    function Read(a: nat): word {
      FromFourBytes(Bytes(a, 4));
      if a < nullSegmentSize then 0 else FromLittleEndian(Bytes(a, 4))
    }

    function Write(a: nat, v: word): Memory {
      if a < nullSegmentSize then this else this.(bytes := StoreBytes(bytes, a, ToLittleEndian(v)))
    }
  }

  function StoreBytes(bytes: map<nat, byte>, a: nat, s: seq<byte>): map<nat, byte>
    decreases s
  {
    if s == [] then bytes else StoreBytes(bytes[a := s[0]], a + 1, s[1..])
  }

  predicate DisjointRanges(a: nat, aSize: nat, b: nat, bSize: nat) {
    a + aSize <= b || b + bSize <= a
  }

  ghost predicate SameBytes(m: Memory, m': Memory, a: nat, size: nat) {
    m.nullSegmentSize == m'.nullSegmentSize && forall b: nat :: a <= b < a + size ==> m.Byte(b) == m'.Byte(b)
  }

  lemma {:induction false} StoredBytes(bytes: map<nat, byte>, a: nat, s: seq<byte>)
    ensures forall b: nat :: b in StoreBytes(bytes, a, s) <==> b in bytes || a <= b < a + |s|
    ensures forall b: nat :: b in StoreBytes(bytes, a, s) ==>
              StoreBytes(bytes, a, s)[b] == if a <= b < a + |s| then s[b - a] else bytes[b]
    decreases s
  {
    if s != [] {
      StoredBytes(bytes[a := s[0]], a + 1, s[1..]);
    }
  }

  lemma {:induction false} StoreBytesConcat(bytes: map<nat, byte>, a: nat, s: seq<byte>, t: seq<byte>)
    ensures StoreBytes(bytes, a, s + t) == StoreBytes(StoreBytes(bytes, a, s), a + |s|, t)
    decreases s
  {
    if s == [] {
      assert s + t == t;
    } else {
      assert (s + t)[1..] == s[1..] + t;
      StoreBytesConcat(bytes[a := s[0]], a + 1, s[1..], t);
    }
  }

  /** Every byte after a word write. */
  lemma ByteAfterWrite(m: Memory, a: nat, v: word)
    ensures m.Write(a, v).nullSegmentSize == m.nullSegmentSize
    ensures forall b: nat :: m.Write(a, v).Byte(b) ==
              if m.nullSegmentSize <= a <= b < a + 4 then ToLittleEndian(v)[b - a] else m.Byte(b)
  {
    StoredBytes(m.bytes, a, ToLittleEndian(v));
  }

  lemma SameWord(m: Memory, m': Memory, a: nat, size: nat, b: nat)
    requires SameBytes(m, m', a, size) && a <= b && b + 4 <= a + size
    ensures m.Read(b) == m'.Read(b)
  {
    assert m.Bytes(b, 4) == m'.Bytes(b, 4);
  }

  /** A word outside the null segment reads back as written. */
  lemma WordWritten(m: Memory, a: nat, v: word)
    requires m.nullSegmentSize <= a
    ensures m.Write(a, v).Read(a) == v
  {
    ByteAfterWrite(m, a, v);
    LittleEndianRoundTrip(v);
    assert m.Write(a, v).Bytes(a, 4) == ToLittleEndian(v);
  }

  lemma OtherWordKept(m: Memory, a: nat, v: word, b: nat)
    requires DisjointRanges(a, 4, b, 4)
    ensures m.Write(a, v).Read(b) == m.Read(b)
  {
    ByteAfterWrite(m, a, v);
    SameWord(m.Write(a, v), m, b, 4, b);
  }

  /** Bytes that were never written are zero, and so are all words of the null segment, which keeps no writes. */
  lemma UnwrittenIsZero(m: Memory, a: nat, v: word)
    ensures a !in m.bytes ==> m.Byte(a) == 0
    ensures a < m.nullSegmentSize ==> m.Read(a) == 0 && m.Write(a, v) == m
  {
  }

  // ---------- Consecutive words ----------

  function WordAt(m: Memory, a: nat, j: nat): word {
    m.Read(a + 4 * j)
  }

  ghost predicate HoldsWords(m: Memory, a: nat, words: seq<word>) {
    forall j :: 0 <= j < |words| ==> WordAt(m, a, j) == words[j]
  }

  function StoreWords(m: Memory, a: nat, words: seq<word>): Memory {
    if words == [] then m else StoreWords(m, a, words[..|words| - 1]).Write(a + 4 * (|words| - 1), words[|words| - 1])
  }

  /** Stored words are held, and nothing else changes. */
  lemma {:induction false} StoredWords(m: Memory, a: nat, words: seq<word>)
    requires m.nullSegmentSize <= a
    ensures var r := StoreWords(m, a, words);
            && r.nullSegmentSize == m.nullSegmentSize && HoldsWords(r, a, words)
            && forall b: nat :: !(a <= b < a + 4 * |words|) ==> r.Byte(b) == m.Byte(b)
  {
    if words != [] {
      var k := |words| - 1;
      var init := words[..k];
      StoredWords(m, a, init);
      AppendedWord(StoreWords(m, a, init), a, init, words[k]);
      assert init + [words[k]] == words;
    }
  }

  lemma AppendedWord(r: Memory, a: nat, init: seq<word>, w: word)
    requires r.nullSegmentSize <= a && HoldsWords(r, a, init)
    ensures var r' := r.Write(a + 4 * |init|, w);
            && r'.nullSegmentSize == r.nullSegmentSize && HoldsWords(r', a, init + [w])
            && forall b: nat :: !(a + 4 * |init| <= b < a + 4 * |init| + 4) ==> r'.Byte(b) == r.Byte(b)
  {
    var end := a + 4 * |init|;
    ByteAfterWrite(r, end, w);
    WordWritten(r, end, w);
    forall j | 0 <= j < |init| ensures WordAt(r.Write(end, w), a, j) == init[j] {
      OtherWordKept(r, end, w, a + 4 * j);
      assert WordAt(r, a, j) == init[j];
    }
  }

  /** The memory as the emulator holds it, updated in place. */
  class Mem {
    var contents: Memory

    constructor (contents: Memory)
      ensures this.contents == contents
    {
      this.contents := contents;
    }

    method Write(a: nat, v: word)
      modifies this
      ensures contents == old(contents).Write(a, v)
    {
      contents := contents.Write(a, v);
    }

    /** One byte through a slice of mapped memory. */
    method StoreByte(a: nat, b: byte)
      modifies this
      ensures contents == old(contents).(bytes := old(contents).bytes[a := b])
    {
      contents := contents.(bytes := contents.bytes[a := b]);
    }
  }
}
