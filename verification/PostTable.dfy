/**
 Glyph names in a font's `post` table (`src/font.rs`): the lookup of a glyph by name and the lookup
 of a glyph's name, which walk the table separately. The standard Macintosh names and UTF-8 decoding
 are parameters.
 */
module PostTable {
  import opened Wrappers
  import opened GuestMemory

  const FORMAT_1 := 0x1_0000
  const FORMAT_2 := 0x2_0000
  const STANDARD_NAMES := 258
  const HEADER_SIZE := 32
  const INDICES_START := 34

  /** What a table is read against: the standard names, and the decoding of a name's bytes. */
  datatype Context = Context(standardNames: seq<string>, decode: seq<byte> -> Option<string>)

  function BigEndian16(data: seq<byte>, i: nat): nat
    requires i + 2 <= |data|
  {
    0x100 * (data[i] as int) + data[i + 1]
  }

  function Format(data: seq<byte>): nat
    requires |data| >= HEADER_SIZE
  {
    0x1_0000 * BigEndian16(data, 0) + BigEndian16(data, 2)
  }

  // ---------- The table as a function from glyphs to names ----------

  /** The number of glyphs that a well-formed table names; 0 for anything else. */
  function GlyphCount(ctx: Context, data: seq<byte>): nat {
    if |data| < HEADER_SIZE then 0
    else if Format(data) == FORMAT_1 then |ctx.standardNames|
    else if Format(data) == FORMAT_2 && |data| >= INDICES_START then
      var n := BigEndian16(data, HEADER_SIZE);
      if |data| < INDICES_START + 2 * n then 0 else n
    else 0
  }

  /** The length-prefixed names from `pos` on, up to the first that does not fit. */
  function PascalStrings(data: seq<byte>, pos: nat): seq<seq<byte>>
    decreases |data| - pos
  {
    if pos >= |data| || pos + 1 + data[pos] > |data| then []
    else [data[pos + 1..pos + 1 + data[pos]]] + PascalStrings(data, pos + 1 + data[pos])
  }

  function Entry<T>(s: seq<T>, i: nat): Option<T> {
    if i < |s| then Some(s[i]) else None
  }

  function NameIndex(data: seq<byte>, glyph: nat): nat
    requires INDICES_START + 2 * glyph + 2 <= |data|
  {
    BigEndian16(data, INDICES_START + 2 * glyph)
  }

  /** The name of a glyph, if the table gives it one that decodes. */
  function NameOf(ctx: Context, data: seq<byte>, glyph: nat): Option<string> {
    if glyph >= GlyphCount(ctx, data) then None
    else if Format(data) == FORMAT_1 then Some(ctx.standardNames[glyph])
    else
      var index := NameIndex(data, glyph);
      if index < STANDARD_NAMES then Entry(ctx.standardNames, index)
      else
        match Entry(PascalStrings(data, INDICES_START + 2 * GlyphCount(ctx, data)), index - STANDARD_NAMES)
        case Some(bytes) => ctx.decode(bytes)
        case None => None
  }

  // ---------- The walkers ----------

  function OrEmpty(s: Option<string>): string {
    if s.Some? then s.value else ""
  }

  /** The extra names of the table, undecodable ones as empty strings (src/font.rs:1247-1257). */
  method ParseExtraNames(ctx: Context, data: seq<byte>, start: nat) returns (names: seq<string>)
    ensures var strings := PascalStrings(data, start);
            |names| == |strings| && forall i :: 0 <= i < |strings| ==> names[i] == OrEmpty(ctx.decode(strings[i]))
  {
    names := [];
    var pos := start;
    ghost var strings := PascalStrings(data, start);
    while pos < |data|
      invariant |names| <= |strings| && strings[|names|..] == PascalStrings(data, pos)
      invariant forall i :: 0 <= i < |names| ==> names[i] == OrEmpty(ctx.decode(strings[i]))
      decreases |data| - pos
    {
      var len: nat := data[pos];
      pos := pos + 1;
      if pos + len > |data| {
        return;
      }
      assert strings[|names|] == data[pos..pos + len];
      assert strings[|names| + 1..] == strings[|names|..][1..];
      names := names + [OrEmpty(ctx.decode(data[pos..pos + len]))];
      pos := pos + len;
    }
  }

  /** What the lookup by name finds: the first glyph whose name, with no name counting as the empty one, it is. */
  ghost predicate FoundBy(ctx: Context, data: seq<byte>, name: string, glyph: Option<nat>) {
    match glyph
    case Some(found) =>
      && found < GlyphCount(ctx, data) && OrEmpty(NameOf(ctx, data, found)) == name
      && forall g :: 0 <= g < found ==> OrEmpty(NameOf(ctx, data, g)) != name
    case None => forall g :: 0 <= g < GlyphCount(ctx, data) ==> OrEmpty(NameOf(ctx, data, g)) != name
  }

  /** What a lookup by name is for: the first glyph that has the name, if one does. */
  ghost predicate IsFirstNamed(ctx: Context, data: seq<byte>, name: string, glyph: Option<nat>) {
    match glyph
    case Some(found) => NameOf(ctx, data, found) == Some(name) && forall g :: 0 <= g < found ==>
        NameOf(ctx, data, g) != Some(name)
    case None => forall g: nat :: NameOf(ctx, data, g) != Some(name)
  }

  /** `glyph_id_from_post_table`. */
  method GlyphIdFromPostTable(ctx: Context, data: seq<byte>, name: string) returns (glyph: Option<nat>)
    ensures FoundBy(ctx, data, name, glyph)
    ensures name != "" ==> IsFirstNamed(ctx, data, name, glyph)
  {
    if |data| < HEADER_SIZE {
      return None;
    }
    var format := Format(data);
    if format == FORMAT_1 {
      for i := 0 to |ctx.standardNames|
        invariant forall g :: 0 <= g < i ==> OrEmpty(NameOf(ctx, data, g)) != name
      {
        if ctx.standardNames[i] == name {
          return Some(i);
        }
      }
      return None;
    } else if format == FORMAT_2 {
      if |data| < INDICES_START {
        return None;
      }
      var glyphCount := BigEndian16(data, HEADER_SIZE);
      var indicesEnd := INDICES_START + 2 * glyphCount;
      if |data| < indicesEnd {
        return None;
      }
      var extraNames := ParseExtraNames(ctx, data, indicesEnd);
      for g := 0 to glyphCount
        invariant forall h :: 0 <= h < g ==> OrEmpty(NameOf(ctx, data, h)) != name
      {
        var index := NameIndex(data, g);
        var glyphName := if index < STANDARD_NAMES then OrEmpty(Entry(ctx.standardNames, index))
                         else OrEmpty(Entry(extraNames, index - STANDARD_NAMES));
        assert glyphName == OrEmpty(NameOf(ctx, data, g));
        if glyphName == name {
          return Some(g);
        }
      }
      return None;
    } else {
      return None;
    }
  }

  /** `glyph_name_from_post_table`. */
  method GlyphNameFromPostTable(ctx: Context, data: seq<byte>, glyph: nat) returns (name: Option<string>)
    ensures name == NameOf(ctx, data, glyph)
  {
    if |data| < HEADER_SIZE {
      return None;
    }
    var format := Format(data);
    if format == FORMAT_1 {
      return Entry(ctx.standardNames, glyph);
    } else if format == FORMAT_2 {
      if |data| < INDICES_START {
        return None;
      }
      var glyphCount := BigEndian16(data, HEADER_SIZE);
      if glyph >= glyphCount {
        return None;
      }
      var indicesEnd := INDICES_START + 2 * glyphCount;
      if |data| < indicesEnd {
        return None;
      }
      var index := NameIndex(data, glyph);
      if index < STANDARD_NAMES {
        return Entry(ctx.standardNames, index);
      }
      var extraIndex, pos, currentExtra := index - STANDARD_NAMES, indicesEnd, 0;
      ghost var strings := PascalStrings(data, indicesEnd);
      while pos < |data|
        invariant currentExtra <= extraIndex && currentExtra <= |strings|
        invariant strings[currentExtra..] == PascalStrings(data, pos)
        decreases |data| - pos
      {
        var len: nat := data[pos];
        pos := pos + 1;
        if pos + len > |data| {
          return None;
        }
        assert strings[currentExtra] == data[pos..pos + len];
        if currentExtra == extraIndex {
          return ctx.decode(data[pos..pos + len]);
        }
        assert strings[currentExtra + 1..] == strings[currentExtra..][1..];
        pos := pos + len;
        currentExtra := currentExtra + 1;
      }
      return None;
    } else {
      return None;
    }
  }

  // ---------- What the walkers agree on ----------

  function EncodePascalStrings(names: seq<seq<byte>>): seq<byte>
    requires forall i :: 0 <= i < |names| ==> |names[i]| < 0x100
  {
    if names == [] then [] else [|names[0]|] + names[0] + EncodePascalStrings(names[1..])
  }

  /** Walking the string table recovers exactly the names that were stored in it. */
  lemma {:induction false} StoredNamesAreRead(data: seq<byte>, pos: nat, names: seq<seq<byte>>)
    requires forall i :: 0 <= i < |names| ==> |names[i]| < 0x100
    requires pos <= |data| && data[pos..] == EncodePascalStrings(names)
    ensures PascalStrings(data, pos) == names
    decreases names
  {
    if names != [] {
      FirstNameStored(data, pos, names[0], EncodePascalStrings(names[1..]));
      StoredNamesAreRead(data, pos + 1 + |names[0]|, names[1..]);
    }
  }

  lemma FirstNameStored(data: seq<byte>, pos: nat, name: seq<byte>, rest: seq<byte>)
    requires |name| < 0x100 && pos <= |data| && data[pos..] == [|name|] + name + rest
    ensures var end := pos + 1 + |name|;
            pos < |data| && data[pos] == |name| && end <= |data| && data[pos + 1..end] == name && data[end..] == rest
  {
    var tail, end := data[pos..], pos + 1 + |name|;
    assert tail[0] == data[pos];
    assert tail[1..1 + |name|] == name && tail[1 + |name|..] == rest;
    assert data[pos + 1..end] == tail[1..1 + |name|];
    assert data[end..] == tail[1 + |name|..];
  }

  function EncodeBigEndian16(v: nat): seq<byte>
    requires v < 0x1_0000
  {
    [v / 0x100, v % 0x100]
  }

  function EncodeIndices(indices: seq<nat>): (s: seq<byte>)
    requires forall i :: 0 <= i < |indices| ==> indices[i] < 0x1_0000
    ensures |s| == 2 * |indices|
  {
    if indices == [] then [] else EncodeBigEndian16(indices[0]) + EncodeIndices(indices[1..])
  }

  lemma {:induction false} IndexStored(indices: seq<nat>, g: nat)
    requires forall i :: 0 <= i < |indices| ==> indices[i] < 0x1_0000
    requires g < |indices|
    ensures var s := EncodeIndices(indices); s[2 * g] == indices[g] / 0x100 && s[2 * g + 1] == indices[g] % 0x100
  {
    var first, rest := EncodeBigEndian16(indices[0]), EncodeIndices(indices[1..]);
    assert EncodeIndices(indices) == first + rest;
    if g > 0 {
      IndexStored(indices[1..], g - 1);
      assert (first + rest)[2 * g] == rest[2 * (g - 1)] && (first + rest)[2 * g + 1] == rest[2 * (g - 1) + 1];
    }
  }

  /** A version 2 table: its number, 28 bytes that do not matter, and the glyphs' name indices and own names. */
  function Version2Table(unused: seq<byte>, indices: seq<nat>, names: seq<seq<byte>>): seq<byte>
    requires |unused| == 28 && |indices| < 0x1_0000
    requires forall i :: 0 <= i < |indices| ==> indices[i] < 0x1_0000
    requires forall i :: 0 <= i < |names| ==> |names[i]| < 0x100
  {
    [0, 2, 0, 0] + unused + EncodeBigEndian16(|indices|) + EncodeIndices(indices) + EncodePascalStrings(names)
  }

  lemma Version2Parts(unused: seq<byte>, indices: seq<nat>, names: seq<seq<byte>>)
    requires |unused| == 28 && |indices| < 0x1_0000
    requires forall i :: 0 <= i < |indices| ==> indices[i] < 0x1_0000
    requires forall i :: 0 <= i < |names| ==> |names[i]| < 0x100
    ensures var data, end := Version2Table(unused, indices, names), 34 + 2 * |indices|;
            && |data| >= end && Format(data) == FORMAT_2 && BigEndian16(data, 32) == |indices|
            && data[34..end] == EncodeIndices(indices) && data[end..] == EncodePascalStrings(names)
  {
    var data, n := Version2Table(unused, indices, names), EncodeBigEndian16(|indices|);
    assert data[0] == 0 && data[1] == 2 && data[2] == 0 && data[3] == 0;
    assert data[32] == n[0] && data[33] == n[1];
  }

  /**
   In such a table, glyph number `g` has the standard name its index says, or from 258 on one of the table's own
   names; there are no glyphs beyond the indices.
   */
  lemma Version2NamesAreRead(ctx: Context, unused: seq<byte>, indices: seq<nat>, names: seq<seq<byte>>, g: nat)
    requires |unused| == 28 && |indices| < 0x1_0000
    requires forall i :: 0 <= i < |indices| ==> indices[i] < 0x1_0000
    requires forall i :: 0 <= i < |names| ==> |names[i]| < 0x100
    ensures var name := NameOf(ctx, Version2Table(unused, indices, names), g);
            && (g >= |indices| ==> name == None)
            && (g < |indices| && indices[g] < 258 && indices[g] < |ctx.standardNames| ==>
                  name == Some(ctx.standardNames[indices[g]]))
            && (g < |indices| && 258 <= indices[g] < 258 + |names| ==> name == ctx.decode(names[indices[g] - 258]))
            && (g < |indices| && indices[g] >= 258 + |names| ==> name == None)
  {
    var data, end := Version2Table(unused, indices, names), 34 + 2 * |indices|;
    Version2Parts(unused, indices, names);
    StoredNamesAreRead(data, end, names);
    if g < |indices| {
      IndexStored(indices, g);
      assert data[34..end][2 * g] == data[34 + 2 * g] && data[34..end][2 * g + 1] == data[34 + 2 * g + 1];
      assert NameIndex(data, g) == indices[g];
    }
  }

  /** A version 1 table gives every glyph the standard name of its number, whatever follows the version. */
  lemma Version1NamesAreRead(ctx: Context, data: seq<byte>, g: nat)
    requires |data| >= 32 && data[..4] == [0, 1, 0, 0]
    ensures NameOf(ctx, data, g) == if g < |ctx.standardNames| then Some(ctx.standardNames[g]) else None
  {
    assert data[0] == data[..4][0] && data[1] == data[..4][1] && data[2] == data[..4][2] && data[3] == data[..4][3];
  }

  /** Tables of other versions, and tables that end before their last index, name nothing. */
  lemma OtherTablesNameNothing(ctx: Context, data: seq<byte>, g: nat)
    requires || |data| < 32
             || (data[..4] != [0, 1, 0, 0] && data[..4] != [0, 2, 0, 0])
             || (data[..4] == [0, 2, 0, 0] && |data| < 34)
             || (data[..4] == [0, 2, 0, 0] && |data| < 34 + 2 * (0x100 * (data[32] as int) + data[33]))
    ensures NameOf(ctx, data, g) == None
  {
    if |data| >= 32 && data[..4] != [0, 1, 0, 0] && data[..4] != [0, 2, 0, 0] {
      assert data[..4] == [data[0], data[1], data[2], data[3]];
    }
    if |data| >= 32 && data[..4] == [0, 2, 0, 0] {
      assert data[0] == data[..4][0] && data[1] == data[..4][1] && data[2] == data[..4][2] && data[3] == data[..4][3];
    }
  }

  /**
   The lookup by name agrees with the other one exactly if it finds nothing or a glyph that has a name:
   so for every name but the empty one, under which a glyph whose name is missing or undecodable is found.
   */
  lemma LookupsAgreeUnlessNameIsEmpty(ctx: Context, data: seq<byte>, name: string, glyph: Option<nat>)
    requires FoundBy(ctx, data, name, glyph)
    ensures IsFirstNamed(ctx, data, name, glyph) <==> glyph.None? || NameOf(ctx, data, glyph.value).Some?
    ensures name != "" ==> IsFirstNamed(ctx, data, name, glyph)
  {
    forall g: nat | NameOf(ctx, data, g) == Some(name)
      ensures g < GlyphCount(ctx, data) && OrEmpty(NameOf(ctx, data, g)) == name {}
  }

  /** A version 2 table of one glyph, whose name would be the first stored one, and no stored names. */
  function NamelessTable(): seq<byte> {
    seq<byte>(INDICES_START + 2, i requires 0 <= i < INDICES_START + 2 =>
      if i == 1 then 2 else if i == HEADER_SIZE + 1 then 1 else if i >= INDICES_START
          then (if i == INDICES_START then 1 else 2) else 0)
  }

  /** An input: its glyph is found under the empty name, though it has no name. */
  method NamelessGlyphIsFound(ctx: Context) returns (glyph: Option<nat>)
    requires |ctx.standardNames| == STANDARD_NAMES
    ensures glyph == Some(0) && NameOf(ctx, NamelessTable(), 0) == None
  {
    var data := NamelessTable();
    assert Format(data) == FORMAT_2 && BigEndian16(data, HEADER_SIZE) == 1 && NameIndex(data, 0) == STANDARD_NAMES;
    assert GlyphCount(ctx, data) == 1 && NameOf(ctx, data, 0) == None;
    glyph := GlyphIdFromPostTable(ctx, data, "");
    assert OrEmpty(NameOf(ctx, data, 0)) == "";
  }
}
