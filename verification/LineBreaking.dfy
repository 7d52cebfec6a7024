/**
 Breaking text into lines of bounded width (`break_lines`, `src/font.rs`). Text is a sequence of
 characters; the measured width of a string and the whitespace test are arbitrary functions.
 */
module LineBreaking {
  import opened Wrappers

  datatype WrapMode = Word | Char

  /** A line of output with its width. */
  datatype Piece = Piece(width: real, text: string)

  // ---------- Lines of a text ----------

  function FindNewline(text: string): (i: nat)
    ensures i <= |text|
    ensures i < |text| ==> text[i] == '\n'
    ensures '\n' !in text[..i]
  {
    if text == [] then 0 else if text[0] == '\n' then 0 else
      var i := FindNewline(text[1..]);
      assert text[..i + 1] == [text[0]] + text[1..][..i];
      i + 1
  }

  function StripCarriageReturn(line: string): string {
    if line != [] && line[|line| - 1] == '\r' then line[..|line| - 1] else line
  }

  /** `str::lines`: a final line without a newline is kept as it is. */
  function Lines(text: string): seq<string>
    decreases |text|
  {
    if text == [] then [] else
      var i := FindNewline(text);
      if i == |text| then [text] else [StripCarriageReturn(text[..i])] + Lines(text[i + 1..])
  }

  /** The lines with what ends each of them. */
  function Ended(lines: seq<string>, endings: seq<string>): string
    requires |lines| == |endings|
  {
    if lines == [] then [] else lines[0] + endings[0] + Ended(lines[1..], endings[1..])
  }

  /** A line holds no newline, and ends in one, perhaps after a carriage return; only the last need not. */
  predicate EndsLine(line: string, ending: string, last: bool) {
    && '\n' !in line
    && (|| ending == "\r\n"
        || (ending == "\n" && (line != [] ==> line[|line| - 1] != '\r'))
        || (ending == [] && last && line != []))
  }

  ghost predicate AreLinesOf(text: string, lines: seq<string>, endings: seq<string>) {
    && |lines| == |endings| && Ended(lines, endings) == text
    && forall i :: 0 <= i < |lines| ==> EndsLine(lines[i], endings[i], i == |lines| - 1)
  }

  lemma RestOfLines(text: string, lines: seq<string>, endings: seq<string>)
    requires lines != [] && AreLinesOf(text, lines, endings)
    ensures var n := |lines[0] + endings[0]|; n <= |text| && AreLinesOf(text[n..], lines[1..], endings[1..])
    ensures text[..|lines[0] + endings[0]|] == lines[0] + endings[0]
  {
    var rest := Ended(lines[1..], endings[1..]);
    assert text == (lines[0] + endings[0]) + rest;
    forall i | 0 <= i < |lines[1..]| ensures EndsLine(lines[1..][i], endings[1..][i], i == |lines[1..]| - 1) {
      assert EndsLine(lines[i + 1], endings[i + 1], i + 1 == |lines| - 1);
    }
  }

  /** The lines of a text, each with its ending, make up the text. */
  lemma {:induction false} LinesMakeText(text: string) returns (endings: seq<string>)
    ensures AreLinesOf(text, Lines(text), endings)
    decreases |text|
  {
    if text == [] {
      endings := [];
    } else {
      var i := FindNewline(text);
      if i == |text| {
        endings := [[]];
        assert Ended([text], endings) == text + [] + Ended([], []);
        assert '\n' !in text[..i] && text[..i] == text;
      } else {
        var line := StripCarriageReturn(text[..i]);
        var rest := LinesMakeText(text[i + 1..]);
        var ending := if line != text[..i] then "\r\n" else "\n";
        endings := [ending] + rest;
        FirstLineEnds(text[..i], line, ending);
        MoreLines(line, ending, text[i + 1..], Lines(text[i + 1..]), rest);
        assert text == (text[..i] + "\n") + text[i + 1..];
      }
    }
  }

  /** A whole line and its ending. */
  lemma FirstLineEnds(before: string, line: string, ending: string)
    requires '\n' !in before && line == StripCarriageReturn(before)
    requires ending == if line != before then "\r\n" else "\n"
    ensures line + ending == before + "\n" && EndsLine(line, ending, true) && EndsLine(line, ending, false)
  {
    if line != before {
      assert before == line + "\r";
      assert line + "\r\n" == (line + "\r") + "\n";
    }
  }

  lemma MoreLines(line: string, ending: string, rest: string, lines: seq<string>, endings: seq<string>)
    requires AreLinesOf(rest, lines, endings) && EndsLine(line, ending, true) && EndsLine(line, ending, false)
    ensures AreLinesOf((line + ending) + rest, [line] + lines, [ending] + endings)
  {
    var lines', endings' := [line] + lines, [ending] + endings;
    assert lines'[1..] == lines && endings'[1..] == endings;
    forall k | 0 <= k < |lines'| ensures EndsLine(lines'[k], endings'[k], k == |lines'| - 1) {
      if k > 0 {
        assert EndsLine(lines[k - 1], endings[k - 1], k - 1 == |lines| - 1);
      }
    }
  }

  /** And nothing else is a division of the text into lines. */
  lemma {:induction false} LinesAreUnique(text: string, lines: seq<string>, endings: seq<string>)
    requires AreLinesOf(text, lines, endings)
    ensures lines == Lines(text)
    decreases |text|
  {
    if lines != [] {
      var line, ending := lines[0], endings[0];
      RestOfLines(text, lines, endings);
      assert EndsLine(line, ending, |lines| == 1);
      assert line + ending != [];
      FirstNewline(text, line, ending);
      if ending != [] {
        LinesAreUnique(text[|line + ending|..], lines[1..], endings[1..]);
        assert lines == [line] + lines[1..];
      } else {
        assert lines == [line] && endings == [ending];
        assert lines[1..] == [] && Ended(lines[1..], endings[1..]) == [];
        assert text == line;
        SingleLine(text);
      }
    }
  }

  lemma FirstNewline(text: string, line: string, ending: string)
    requires EndsLine(line, ending, ending == []) && line + ending <= text
    ensures ending == [] && text == line ==> FindNewline(text) == |text|
    ensures ending != [] ==>
              FindNewline(text) + 1 == |line + ending| && StripCarriageReturn(text[..FindNewline(text)]) == line
  {
    if ending != [] {
      var k := |line + ending| - 1;
      assert text[..k + 1] == line + ending;
      assert (line + ending)[..k] == line + ending[..|ending| - 1] == text[..k];
      NewlineAt(text, k);
    }
  }

  lemma NewlineAt(text: string, k: nat)
    requires k < |text| && text[k] == '\n' && '\n' !in text[..k]
    ensures FindNewline(text) == k
  {
    var i := FindNewline(text);
    assert forall j :: 0 <= j < k ==> text[..k][j] == text[j];
    assert forall j :: 0 <= j < i ==> text[..i][j] == text[j];
  }

  // ---------- Trimming ----------

  function TrimEnd(isSpace: char -> bool, s: string): (r: string)
    ensures r <= s
  {
    if s != [] && isSpace(s[|s| - 1]) then TrimEnd(isSpace, s[..|s| - 1]) else s
  }

  /** What trimming drops is whitespace. */
  lemma {:induction false} TrimDropsSpaces(isSpace: char -> bool, s: string)
    ensures forall i :: |TrimEnd(isSpace, s)| <= i < |s| ==> isSpace(s[i])
  {
    if s != [] && isSpace(s[|s| - 1]) {
      TrimDropsSpaces(isSpace, s[..|s| - 1]);
    }
  }

  lemma {:induction false} TrimIsMonotone(isSpace: char -> bool, s: string, t: string)
    requires s <= t
    ensures TrimEnd(isSpace, s) <= TrimEnd(isSpace, t)
    decreases |t|
  {
    if s == t {
    } else if isSpace(t[|t| - 1]) {
      TrimIsMonotone(isSpace, s, t[..|t| - 1]);
    }
  }

  // ---------- Wrap points ----------

  /** Where a line may be broken: before a word, or anywhere, and at its end. */
  predicate IsWrapPoint(isSpace: char -> bool, mode: WrapMode, line: string, p: nat) {
    p == |line| || (0 < p < |line| && (mode.Word? ==> isSpace(line[p - 1]) && !isSpace(line[p])))
  }

  predicate InOrder(points: seq<nat>, i: int, j: int) {
    0 <= i < j < |points| ==> points[i] < points[j]
  }

  ghost predicate Increasing(points: seq<nat>) {
    forall i, j :: InOrder(points, i, j)
  }

  lemma OneAfterAnother(points: seq<nat>)
    requires Increasing(points)
    ensures forall i, j :: 0 <= i < j < |points| ==> points[i] < points[j]
  {
    forall i, j | 0 <= i < j < |points| ensures points[i] < points[j] {
      assert InOrder(points, i, j);
    }
  }

  ghost predicate AllWrapPoints(isSpace: char -> bool, mode: WrapMode, line: string, points: seq<nat>) {
    && points != [] && points[|points| - 1] == |line|
    && Increasing(points)
    && forall p: nat :: p in points <==> IsWrapPoint(isSpace, mode, line, p)
  }

  /** The first index from `start` on whose character is (or is not) whitespace. */
  method FindFrom(isSpace: char -> bool, line: string, start: nat, space: bool) returns (found: Option<nat>)
    requires start <= |line|
    ensures match found
            case Some(i) => start <= i < |line| && isSpace(line[i]) == space && forall j :: start <= j < i ==>
                isSpace(line[j]) != space
            case None => forall j :: start <= j < |line| ==> isSpace(line[j]) != space
  {
    for i := start to |line|
      invariant forall j :: start <= j < i ==> isSpace(line[j]) != space
    {
      if isSpace(line[i]) == space {
        return Some(i);
      }
    }
    return None;
  }

  /** The points found so far are all those up to `bound`. */
  ghost predicate PointsUpTo(isSpace: char -> bool, mode: WrapMode, line: string, points: seq<nat>, bound: nat) {
    && Increasing(points)
    && forall p: nat :: p in points <==> p <= bound && p < |line| && IsWrapPoint(isSpace, mode, line, p)
  }

  lemma NextPoint(isSpace: char -> bool, mode: WrapMode, line: string, points: seq<nat>, bound: nat, p: nat)
    requires PointsUpTo(isSpace, mode, line, points, bound) && bound < p < |line| && IsWrapPoint(isSpace, mode, line, p)
    requires forall q :: bound < q < p ==> !IsWrapPoint(isSpace, mode, line, q)
    ensures PointsUpTo(isSpace, mode, line, points + [p], p)
  {
    forall i | 0 <= i < |points| ensures points[i] < p {
      assert points[i] in points;
    }
    forall i, j ensures InOrder(points + [p], i, j) {
      assert InOrder(points, i, j);
    }
  }

  lemma LastPoint(isSpace: char -> bool, mode: WrapMode, line: string, points: seq<nat>, bound: nat)
    requires PointsUpTo(isSpace, mode, line, points, bound)
    requires forall q :: bound < q < |line| ==> !IsWrapPoint(isSpace, mode, line, q)
    ensures AllWrapPoints(isSpace, mode, line, points + [|line|])
  {
    forall i | 0 <= i < |points| ensures points[i] < |line| {
      assert points[i] in points;
    }
    forall i, j ensures InOrder(points + [|line|], i, j) {
      assert InOrder(points, i, j);
    }
  }

  method FindWrapPoints(isSpace: char -> bool, mode: WrapMode, line: string) returns (points: seq<nat>)
    ensures AllWrapPoints(isSpace, mode, line, points)
  {
    points := [];
    ghost var bound := 0;
    match mode {
      case Word =>
        var wordStart := 0;
        while true
          invariant wordStart <= |line| && bound == wordStart
          invariant PointsUpTo(isSpace, mode, line, points, bound)
          decreases |line| - wordStart
        {
          var wordEnd := FindFrom(isSpace, line, wordStart, true);
          if wordEnd.None? {
            break;
          }
          var next := FindFrom(isSpace, line, wordEnd.value, false);
          if next.None? {
            break;
          }
          NextPoint(isSpace, mode, line, points, bound, next.value);
          points := points + [next.value];
          wordStart := next.value;
          bound := wordStart;
        }
      case Char =>
        var charEnd := 1;
        while charEnd < |line|
          invariant 1 <= charEnd && (charEnd <= |line| || charEnd == 1) && bound == charEnd - 1
          invariant PointsUpTo(isSpace, mode, line, points, bound)
        {
          NextPoint(isSpace, mode, line, points, bound, charEnd);
          points := points + [charEnd];
          bound := charEnd;
          charEnd := charEnd + 1;
        }
    }
    LastPoint(isSpace, mode, line, points, bound);
    points := points + [|line|];
  }

  // ---------- The search for the longest line that fits ----------

  datatype SearchResult = Found(i: nat) | InsertAt(i: nat)

  ghost predicate Sorted(widths: seq<real>) {
    forall i, j :: 0 <= i < j < |widths| ==> widths[i] <= widths[j]
  }

  /**
   `slice::binary_search_by`: on widths that are not sorted the result is unspecified, apart from
   being an index.
   */
  method BinarySearch(widths: seq<real>, wanted: real) returns (result: SearchResult)
    requires widths != []
    ensures result.Found? ==> result.i < |widths| && widths[result.i] == wanted
    ensures result.InsertAt? ==> result.i <= |widths|
    ensures Sorted(widths) && result.InsertAt? ==>
              && (forall j :: 0 <= j < result.i ==> widths[j] < wanted)
              && (forall j :: result.i <= j < |widths| ==> wanted < widths[j])
  {
    var base: nat, size: nat := 0, |widths|;
    while size > 1
      invariant 1 <= size && base + size <= |widths|
      invariant Sorted(widths) ==>
                  && (base > 0 ==> widths[base] <= wanted)
                  && (forall j :: base + size <= j < |widths| ==> wanted < widths[j])
    {
      var half := size / 2;
      if widths[base + half] <= wanted {
        base := base + half;
      }
      size := size - half;
    }
    if widths[base] == wanted {
      return Found(base);
    }
    return InsertAt(if widths[base] < wanted then base + 1 else base);
  }

  // ---------- What breaking a line must achieve ----------

  /** The half-open range of a line that a piece comes from. */
  datatype Span = Span(start: nat, end: nat)

  /** The spans follow one another from 0 to `end`. */
  ghost predicate Contiguous(spans: seq<Span>, end: nat) {
    if spans == [] then end == 0 else
      var last := spans[|spans| - 1];
      last.start <= last.end == end && Contiguous(spans[..|spans| - 1], last.start)
  }

  /** Whitespace before a word wrap point does not count. */
  function TrimFor(isSpace: char -> bool, mode: WrapMode, s: string): string {
    if mode.Word? then TrimEnd(isSpace, s) else s
  }

  predicate NoWider(width: string -> real, s: string, t: string) {
    s <= t ==> width(s) <= width(t)
  }

  /** No prefix of a string is wider than the string. */
  ghost predicate MonotoneWidth(width: string -> real) {
    forall s, t :: NoWider(width, s, t)
  }

  ghost predicate AtBoundary(isSpace: char -> bool, mode: WrapMode, line: string, p: nat) {
    p == 0 || IsWrapPoint(isSpace, mode, line, p)
  }

  /** A span between wrap points that fits could not have been extended to a later wrap point. */
  ghost predicate Longest(width: string -> real, isSpace: char -> bool, mode: WrapMode, line: string, wrapWidth: real,
                          span: Span)
    requires span.start <= span.end <= |line|
  {
    AtBoundary(isSpace, mode, line, span.start) && AtBoundary(isSpace, mode, line, span.end)
    && width(TrimFor(isSpace, mode, line[span.start..span.end])) <= wrapWidth ==>
      forall q: nat :: span.end < q <= |line| && IsWrapPoint(isSpace, mode, line, q) ==>
        wrapWidth <= width(TrimFor(isSpace, mode, line[span.start..q]))
  }

  /** A piece is its span's text, less trailing whitespace at an inner word break. */
  ghost predicate TextOf(isSpace: char -> bool, mode: WrapMode, line: string, text: string, span: Span) {
    && span.start <= span.end <= |line|
    && (span.start < span.end || line == [])
    && (text == line[span.start..span.end]
        || (mode.Word? && span.end < |line| && text == TrimEnd(isSpace, line[span.start..span.end])))
  }

  /** The piece fits, in word mode once its trailing whitespace is ignored, or is a single character. */
  ghost predicate FitsOrSingle(width: string -> real, isSpace: char -> bool, mode: WrapMode, wrapWidth: real,
                               text: string)
  {
    width(TrimFor(isSpace, mode, text)) <= wrapWidth || |text| <= 1
  }

  /** A span that ends at a wrap point within the line and fits comes out trimmed. */
  ghost predicate TrimmedAtBreak(width: string -> real, isSpace: char -> bool, mode: WrapMode, line: string,
                                 wrapWidth: real, text: string, span: Span)
    requires span.start <= span.end <= |line|
  {
    && mode.Word? && span.end < |line|
    && AtBoundary(isSpace, mode, line, span.start) && AtBoundary(isSpace, mode, line, span.end)
    && width(TrimEnd(isSpace, line[span.start..span.end])) <= wrapWidth ==>
      text == TrimEnd(isSpace, line[span.start..span.end])
  }

  /** A word with the whitespace behind it that is too wide for a line. */
  ghost predicate WideWord(width: string -> real, isSpace: char -> bool, line: string, wrapWidth: real, from: nat,
                           to: nat)
  {
    && from < to <= |line| && AtBoundary(isSpace, Word, line, from) && AtBoundary(isSpace, Word, line, to)
    && (forall p :: from < p < to ==> !IsWrapPoint(isSpace, Word, line, p))
    && (MonotoneWidth(width) ==> wrapWidth < width(TrimEnd(isSpace, line[from..to])))
  }

  /** A part of such a word, as long as it can be. */
  ghost predicate PartOf(width: string -> real, isSpace: char -> bool, line: string, wrapWidth: real, text: string,
                         span: Span, from: nat, to: nat)
  {
    && WideWord(width, isSpace, line, wrapWidth, from, to)
    && from <= span.start <= span.end <= to && text == line[span.start..span.end]
    && (MonotoneWidth(width) ==>
          Longest(width, isSpace, Char, line[from..to], wrapWidth, Span(span.start - from, span.end - from)))
  }

  /** Only words that are too wide are broken up. */
  ghost predicate WellPlaced(width: string -> real, isSpace: char -> bool, mode: WrapMode, line: string,
                             wrapWidth: real, text: string, span: Span)
  {
    || (AtBoundary(isSpace, mode, line, span.start) && AtBoundary(isSpace, mode, line, span.end))
    || (mode.Word? && exists from: nat, to: nat :: PartOf(width, isSpace, line, wrapWidth, text, span, from, to))
  }

  ghost predicate GoodPiece(width: string -> real, isSpace: char -> bool, mode: WrapMode, line: string, wrapWidth: real,
                            piece: Piece, span: Span)
  {
    && TextOf(isSpace, mode, line, piece.text, span)
    && piece.width == width(piece.text)
    && WellPlaced(width, isSpace, mode, line, wrapWidth, piece.text, span)
    && (MonotoneWidth(width) ==> FitsOrSingle(width, isSpace, mode, wrapWidth, piece.text))
    && (MonotoneWidth(width) ==> Longest(width, isSpace, mode, line, wrapWidth, span))
    && (MonotoneWidth(width) ==> TrimmedAtBreak(width, isSpace, mode, line, wrapWidth, piece.text, span))
  }

  /** The pieces tile the line up to `end`, and each is a good one. */
  ghost predicate BrokenUpTo(width: string -> real, isSpace: char -> bool, mode: WrapMode, line: string,
                             wrapWidth: real,
                             pieces: seq<Piece>, spans: seq<Span>, end: nat)
  {
    && |spans| == |pieces| && Contiguous(spans, end)
    && forall k :: 0 <= k < |pieces| ==> GoodPiece(width, isSpace, mode, line, wrapWidth, pieces[k], spans[k])
  }

  /** The spans that show how the pieces tile the line. */
  ghost predicate BrokenUp(width: string -> real, isSpace: char -> bool, mode: WrapMode, line: string, wrapWidth: real,
                           pieces: seq<Piece>)
  {
    exists spans :: BrokenUpTo(width, isSpace, mode, line, wrapWidth, pieces, spans, |line|)
  }

  // ---------- Appending pieces ----------

  lemma OneMorePiece(width: string -> real, isSpace: char -> bool, mode: WrapMode, line: string, wrapWidth: real,
                     pieces: seq<Piece>, spans: seq<Span>, piece: Piece, span: Span)
    requires BrokenUpTo(width, isSpace, mode, line, wrapWidth, pieces, spans, span.start)
    requires GoodPiece(width, isSpace, mode, line, wrapWidth, piece, span)
    ensures BrokenUpTo(width, isSpace, mode, line, wrapWidth, pieces + [piece], spans + [span], span.end)
  {
    assert (spans + [span])[..|spans|] == spans;
  }

  lemma BrokenPrefix(width: string -> real, isSpace: char -> bool, mode: WrapMode, line: string, wrapWidth: real,
                     pieces: seq<Piece>, spans: seq<Span>, end: nat)
    requires BrokenUpTo(width, isSpace, mode, line, wrapWidth, pieces, spans, end) && pieces != []
    ensures var k := |pieces| - 1;
            && BrokenUpTo(width, isSpace, mode, line, wrapWidth, pieces[..k], spans[..k], spans[k].start)
            && GoodPiece(width, isSpace, mode, line, wrapWidth, pieces[k], spans[k]) && spans[k].end == end
  {
  }

  /** The pieces of a word too wide to fit, as pieces of the line. */
  lemma {:induction false} BrokenWordPieces(width: string -> real, isSpace: char -> bool, line: string, wrapWidth: real,
                                            pieces: seq<Piece>, spans: seq<Span>, start: nat, end: nat,
                                            wordPieces: seq<Piece>, wordSpans: seq<Span>, done: nat)
    returns (shifted: seq<Span>)
    requires WideWord(width, isSpace, line, wrapWidth, start, end)
    requires BrokenUpTo(width, isSpace, Word, line, wrapWidth, pieces, spans, start)
    requires BrokenUpTo(width, isSpace, Char, line[start..end], wrapWidth, wordPieces, wordSpans, done)
    ensures BrokenUpTo(width, isSpace, Word, line, wrapWidth, pieces + wordPieces, shifted, start + done)
    decreases |wordPieces|
  {
    if wordPieces == [] {
      assert pieces + wordPieces == pieces;
      shifted := spans;
    } else {
      var k := |wordPieces| - 1;
      var last := wordSpans[k];
      BrokenPrefix(width, isSpace, Char, line[start..end], wrapWidth, wordPieces, wordSpans, done);
      var init := BrokenWordPieces(width, isSpace, line, wrapWidth, pieces, spans, start, end, wordPieces[..k],
                                   wordSpans[..k], last.start);
      var span := Span(start + last.start, start + last.end);
      BrokenWordPiece(width, isSpace, line, wrapWidth, start, end, wordPieces[k], last);
      OneMorePiece(width, isSpace, Word, line, wrapWidth, pieces + wordPieces[..k], init, wordPieces[k], span);
      assert pieces + wordPieces[..k] + [wordPieces[k]] == pieces + wordPieces;
      shifted := init + [span];
    }
  }

  lemma SliceOfSlice<T>(s: seq<T>, from: nat, to: nat, a: nat, b: nat)
    requires from <= to <= |s| && a <= b <= to - from
    ensures s[from..to][a..b] == s[from + a..from + b]
  {
    var middle, left, right := s[from..to], s[from..to][a..b], s[from + a..from + b];
    forall i | 0 <= i < b - a ensures left[i] == right[i] {
      assert left[i] == middle[a + i] == s[from + (a + i)];
    }
  }

  lemma BrokenWordPiece(width: string -> real, isSpace: char -> bool, line: string, wrapWidth: real,
                        start: nat, end: nat, piece: Piece, span: Span)
    requires WideWord(width, isSpace, line, wrapWidth, start, end)
    requires GoodPiece(width, isSpace, Char, line[start..end], wrapWidth, piece, span)
    ensures GoodPiece(width, isSpace, Word, line, wrapWidth, piece, Span(start + span.start, start + span.end))
  {
    SliceOfSlice(line, start, end, span.start, span.end);
    TrimDropsSpaces(isSpace, piece.text);
    assert PartOf(width, isSpace, line, wrapWidth, piece.text, Span(start + span.start, start + span.end), start, end);
    if MonotoneWidth(width) {
      assert NoWider(width, TrimEnd(isSpace, piece.text), piece.text);
    }
    if span.start == 0 && span.end == end - start {
      assert line[start + span.start..start + span.end] == line[start..end];
    }
  }

  // ---------- The wrapping loop ----------

  predicate PointsWithin(line: string, start: nat, points: seq<nat>) {
    forall i :: 0 <= i < |points| ==> start <= points[i] <= |line|
  }

  function LineWidth(width: string -> real, isSpace: char -> bool, mode: WrapMode, line: string, start: nat,
                     end: nat): real
    requires start <= end <= |line|
  {
    width(TrimFor(isSpace, mode, line[start..end]))
  }

  /** The trimmed width of the line from `start` to each candidate wrap point. */
  function CandidateWidths(width: string -> real, isSpace: char -> bool, mode: WrapMode, line: string, start: nat,
                           points: seq<nat>): (w: seq<real>)
    requires PointsWithin(line, start, points)
    ensures |w| == |points|
  {
    seq(|points|, i requires 0 <= i < |points| => LineWidth(width, isSpace, mode, line, start, points[i]))
  }

  /** They are sorted, because trimmed prefixes are prefixes of one another. */
  lemma WidthsSorted(width: string -> real, isSpace: char -> bool, mode: WrapMode, line: string, start: nat,
                     points: seq<nat>)
    requires Increasing(points) && PointsWithin(line, start, points) && MonotoneWidth(width)
    ensures Sorted(CandidateWidths(width, isSpace, mode, line, start, points))
  {
    var widths := CandidateWidths(width, isSpace, mode, line, start, points);
    OneAfterAnother(points);
    forall i, j | 0 <= i < j < |widths| ensures widths[i] <= widths[j] {
      assert start <= points[i] <= |line| && start <= points[j] <= |line|;
      var s, t := line[start..points[i]], line[start..points[j]];
      assert t[..|s|] == s;
      TrimIsMonotone(isSpace, s, t);
      assert NoWider(width, TrimFor(isSpace, mode, s), TrimFor(isSpace, mode, t));
    }
  }

  lemma {:induction false} TrimTwice(isSpace: char -> bool, s: string)
    ensures TrimEnd(isSpace, TrimEnd(isSpace, s)) == TrimEnd(isSpace, s)
  {
    if s != [] && isSpace(s[|s| - 1]) {
      TrimTwice(isSpace, s[..|s| - 1]);
    }
  }

  /** The text pushed for a span: trimmed, unless the span ends the line. */
  function PushedText(isSpace: char -> bool, mode: WrapMode, line: string, span: Span): string
    requires span.start <= span.end <= |line|
  {
    var text := line[span.start..span.end];
    if span.end != |line| then TrimFor(isSpace, mode, text) else text
  }

  /** A span chosen by the search gives a good piece. */
  lemma ChosenSpanIsGood(width: string -> real, isSpace: char -> bool, mode: WrapMode, line: string, wrapWidth: real,
                         span: Span)
    requires span.start <= span.end <= |line| && (span.start < span.end || line == [])
    requires AtBoundary(isSpace, mode, line, span.start) && AtBoundary(isSpace, mode, line, span.end)
    requires MonotoneWidth(width) ==>
               width(TrimFor(isSpace, mode, line[span.start..span.end])) <= wrapWidth || span.end - span.start <= 1
    requires MonotoneWidth(width) ==> Longest(width, isSpace, mode, line, wrapWidth, span)
    ensures var text := PushedText(isSpace, mode, line, span);
            GoodPiece(width, isSpace, mode, line, wrapWidth, Piece(width(text), text), span)
  {
    var text := line[span.start..span.end];
    TrimTwice(isSpace, text);
    TrimDropsSpaces(isSpace, text);
    if MonotoneWidth(width) {
      assert NoWider(width, TrimEnd(isSpace, text), text);
    }
  }

  /** What the search knows about the point it settles on. */
  ghost predicate Settles(width: string -> real, isSpace: char -> bool, mode: WrapMode, line: string, wrapWidth: real,
                          start: nat, points: seq<nat>, next: nat, chosen: nat)
  {
    && next <= chosen < |points| && (forall j :: next <= j < |points| ==> start <= points[j] <= |line|)
    && LineWidth(width, isSpace, mode, line, start, points[chosen]) <= wrapWidth
    && forall j :: chosen < j < |points| ==> wrapWidth <= LineWidth(width, isSpace, mode, line, start, points[j])
  }

  /** No wrap point lies between neighbouring entries. */
  lemma NothingBetween(isSpace: char -> bool, mode: WrapMode, line: string, points: seq<nat>, i: nat)
    requires AllWrapPoints(isSpace, mode, line, points) && i < |points|
    ensures var before := if i == 0 then 0 else points[i - 1];
            forall p :: before < p < points[i] ==> !IsWrapPoint(isSpace, mode, line, p)
  {
    var before := if i == 0 then 0 else points[i - 1];
    OneAfterAnother(points);
    forall p | before < p < points[i] ensures p !in points {
      assert forall k :: 0 <= k < |points| ==> points[k] <= before || points[i] <= points[k];
    }
  }

  lemma StartBeforePoints(isSpace: char -> bool, mode: WrapMode, line: string, points: seq<nat>, next: nat)
    requires AllWrapPoints(isSpace, mode, line, points) && next < |points|
    ensures var start := if next == 0 then 0 else points[next - 1];
            && PointsWithin(line, start, points[next..]) && (start < points[next] || line == [])
            && Increasing(points[next..])
  {
    OneAfterAnother(points);
    assert points[next] in points;
    forall i, j ensures InOrder(points[next..], i, j) {
      assert InOrder(points, next + i, next + j);
    }
    forall i | next <= i < |points| ensures points[i] <= |line| {
      assert points[i] in points;
    }
  }

  /** A settled choice leaves nothing longer that fits. */
  lemma SettledIsLongest(width: string -> real, isSpace: char -> bool, mode: WrapMode, line: string, wrapWidth: real,
                         start: nat, points: seq<nat>, next: nat, chosen: nat)
    requires AllWrapPoints(isSpace, mode, line, points)
    requires Settles(width, isSpace, mode, line, wrapWidth, start, points, next, chosen)
            && start <= points[chosen] <= |line|
    ensures Longest(width, isSpace, mode, line, wrapWidth, Span(start, points[chosen]))
  {
    forall q: nat | points[chosen] < q <= |line| && IsWrapPoint(isSpace, mode, line, q)
      ensures wrapWidth <= width(TrimFor(isSpace, mode, line[start..q]))
    {
      OneAfterAnother(points);
      assert q in points;
      var j :| 0 <= j < |points| && points[j] == q;
    }
  }

  /** The search for the last wrap point whose line fits (src/font.rs:411-445). */
  method SearchWrapPoint(width: string -> real, isSpace: char -> bool, mode: WrapMode, line: string, wrapWidth: real,
                         start: nat, points: seq<nat>, next: nat) returns (chosen: Option<nat>)
    requires AllWrapPoints(isSpace, mode, line, points) && next < |points|
    requires start == if next == 0 then 0 else points[next - 1]
    ensures chosen.Some? ==> next <= chosen.value < |points|
    ensures MonotoneWidth(width) && chosen.Some? ==>
              Settles(width, isSpace, mode, line, wrapWidth, start, points, next, chosen.value)
    ensures start <= points[next] <= |line|
    ensures MonotoneWidth(width) && chosen.None? ==>
            wrapWidth < LineWidth(width, isSpace, mode, line, start, points[next])
  {
    StartBeforePoints(isSpace, mode, line, points, next);
    var widths := CandidateWidths(width, isSpace, mode, line, start, points[next..]);
    var result := BinarySearch(widths, wrapWidth);
    if MonotoneWidth(width) {
      WidthsSorted(width, isSpace, mode, line, start, points[next..]);
      SearchSettles(width, isSpace, mode, line, wrapWidth, start, points, next, result);
    }
    match result {
      case Found(i) => return Some(next + i);
      case InsertAt(i) => return if i >= 1 then Some(next + (i - 1)) else None;
    }
  }

  /** What a binary search over sorted widths says about the wrap points. */
  lemma SearchSettles(width: string -> real, isSpace: char -> bool, mode: WrapMode, line: string, wrapWidth: real,
                      start: nat, points: seq<nat>, next: nat, result: SearchResult)
    requires next < |points| && PointsWithin(line, start, points[next..])
    requires var widths := CandidateWidths(width, isSpace, mode, line, start, points[next..]);
             && Sorted(widths)
             && (result.Found? ==> result.i < |widths| && widths[result.i] == wrapWidth)
             && (result.InsertAt? ==>
                   && result.i <= |widths|
                   && (forall j :: 0 <= j < result.i ==> widths[j] < wrapWidth)
                   && (forall j :: result.i <= j < |widths| ==> wrapWidth < widths[j]))
    ensures start <= points[next] <= |line|
    ensures result == InsertAt(0) ==> wrapWidth < LineWidth(width, isSpace, mode, line, start, points[next])
    ensures result != InsertAt(0) ==>
              Settles(width, isSpace, mode, line, wrapWidth, start, points, next,
                      next + (if result.Found? then result.i else result.i - 1))
  {
    var widths := CandidateWidths(width, isSpace, mode, line, start, points[next..]);
    forall j | next <= j < |points|
      ensures start <= points[j] <= |line| && widths[j - next] ==
              LineWidth(width, isSpace, mode, line, start, points[j])
    {
      assert points[next..][j - next] == points[j];
    }
  }

  /** One line wrapped to `wrapWidth` (src/font.rs:362-465). */
  method BreakLine(width: string -> real, isSpace: char -> bool, mode: WrapMode, line: string, wrapWidth: real)
    returns (pieces: seq<Piece>)
    requires mode.Word? ==> '\n' !in line
    ensures BrokenUp(width, isSpace, mode, line, wrapWidth, pieces)
    decreases if mode.Word? then 1 else 0, 0
  {
    var points := FindWrapPoints(isSpace, mode, line);
    pieces := [];
    ghost var spans: seq<Span> := [];
    var next, lineStart := 0, 0;
    while next < |points|
      invariant next <= |points| && lineStart == if next == 0 then 0 else points[next - 1]
      invariant BrokenUpTo(width, isSpace, mode, line, wrapWidth, pieces, spans, lineStart)
    {
      var chosen := SearchWrapPoint(width, isSpace, mode, line, wrapWidth, lineStart, points, next);
      NextWord(isSpace, mode, line, points, next, lineStart);
      if chosen.None? && mode.Word? {
        pieces, spans := BreakWord(width, isSpace, line, wrapWidth, pieces, spans, lineStart, points[next]);
        lineStart := points[next];
        next := next + 1;
      } else {
        var index := if chosen.Some? then chosen.value else next;
        var span := Span(lineStart, points[index]);
        PushChosen(width, isSpace, mode, line, wrapWidth, pieces, spans, lineStart, points, next, chosen);
        var text := PushedText(isSpace, mode, line, span);
        pieces := pieces + [Piece(width(text), text)];
        spans := spans + [span];
        next := index + 1;
        lineStart := points[index];
      }
    }
  }

  /** The pieces of a word that is too wide, behind those there are (src/font.rs:428-442). */
  method BreakWord(width: string -> real, isSpace: char -> bool, line: string, wrapWidth: real, pieces: seq<Piece>,
                   ghost spans: seq<Span>, start: nat, end: nat)
    returns (longer: seq<Piece>, ghost shifted: seq<Span>)
    requires start <= end <= |line| && (start < end || line == []) && '\n' !in line
    requires BrokenUpTo(width, isSpace, Word, line, wrapWidth, pieces, spans, start)
    requires forall p :: start < p < end ==> !IsWrapPoint(isSpace, Word, line, p)
    requires AtBoundary(isSpace, Word, line, start) && AtBoundary(isSpace, Word, line, end)
    requires MonotoneWidth(width) ==> wrapWidth < LineWidth(width, isSpace, Word, line, start, end)
    ensures BrokenUpTo(width, isSpace, Word, line, wrapWidth, longer, shifted, end)
    decreases 0, 2
  {
    var broken := BreakLines(width, isSpace, line[start..end], Some((wrapWidth, Char)));
    shifted := AddBrokenWord(width, isSpace, line, wrapWidth, pieces, spans, start, end, broken);
    longer := pieces + broken;
  }

  /** The span the loop pushes, whether the search settled or a single character is forced. */
  lemma ChosenPointIsGood(width: string -> real, isSpace: char -> bool, mode: WrapMode, line: string, wrapWidth: real,
                          start: nat, points: seq<nat>, next: nat, chosen: Option<nat>)
    requires AllWrapPoints(isSpace, mode, line, points) && next < |points|
    requires start == if next == 0 then 0 else points[next - 1]
    requires chosen.Some? ==> next <= chosen.value < |points|
    requires MonotoneWidth(width) && chosen.Some? ==>
               Settles(width, isSpace, mode, line, wrapWidth, start, points, next, chosen.value)
    requires start <= points[next] <= |line|
    requires chosen.None? ==> mode.Char?
    requires MonotoneWidth(width) && chosen.None? ==>
            wrapWidth < LineWidth(width, isSpace, mode, line, start, points[next])
    ensures var span := Span(start, points[if chosen.Some? then chosen.value else next]);
            && span.start <= span.end <= |line|
            && var text := PushedText(isSpace, mode, line, span);
               GoodPiece(width, isSpace, mode, line, wrapWidth, Piece(width(text), text), span)
  {
    var index := if chosen.Some? then chosen.value else next;
    var span := Span(start, points[index]);
    StartBeforePoints(isSpace, mode, line, points, next);
    assert InOrder(points, next, index);
    assert points[index] in points && (next > 0 ==> points[next - 1] in points);
    assert points[next..][index - next] == points[index];
    if MonotoneWidth(width) && chosen.Some? {
      SettledIsLongest(width, isSpace, mode, line, wrapWidth, start, points, next, chosen.value);
    }
    if chosen.None? {
      NothingBetween(isSpace, mode, line, points, next);
      assert start + 1 < points[next] ==> IsWrapPoint(isSpace, mode, line, start + 1);
    }
    ChosenSpanIsGood(width, isSpace, mode, line, wrapWidth, span);
  }

  /** Breaking a text that is one line yields that line's pieces. */
  lemma BrokenSingleLine(width: string -> real, isSpace: char -> bool, word: string, wrapWidth: real,
                         broken: seq<Piece>)
    requires word != [] && '\n' !in word && BrokenLines(width, isSpace, word, Some((wrapWidth, Char)), broken)
    ensures BrokenUp(width, isSpace, Char, word, wrapWidth, broken)
  {
    var groups :| GroupsOf(width, isSpace, word, Some((wrapWidth, Char)), broken, groups);
    SingleLine(word);
    assert groups == [groups[0]];
    FlattenOne(groups[0]);
    assert LineBroken(width, isSpace, Lines(word)[0], Some((wrapWidth, Char)), groups[0]);
  }

  lemma PushChosen(width: string -> real, isSpace: char -> bool, mode: WrapMode, line: string, wrapWidth: real,
                   pieces: seq<Piece>, spans: seq<Span>, start: nat, points: seq<nat>, next: nat, chosen: Option<nat>)
    requires AllWrapPoints(isSpace, mode, line, points) && next < |points|
    requires start == if next == 0 then 0 else points[next - 1]
    requires chosen.Some? ==> next <= chosen.value < |points|
    requires MonotoneWidth(width) && chosen.Some? ==>
               Settles(width, isSpace, mode, line, wrapWidth, start, points, next, chosen.value)
    requires start <= points[next] <= |line|
    requires chosen.None? ==> mode.Char?
    requires MonotoneWidth(width) && chosen.None? ==>
            wrapWidth < LineWidth(width, isSpace, mode, line, start, points[next])
    requires BrokenUpTo(width, isSpace, mode, line, wrapWidth, pieces, spans, start)
    ensures var span := Span(start, points[if chosen.Some? then chosen.value else next]);
            && span.start <= span.end <= |line|
            && var text := PushedText(isSpace, mode, line, span);
               BrokenUpTo(width, isSpace, mode, line, wrapWidth, pieces + [Piece(width(text), text)], spans + [span],
                          span.end)
  {
    ChosenPointIsGood(width, isSpace, mode, line, wrapWidth, start, points, next, chosen);
    var span := Span(start, points[if chosen.Some? then chosen.value else next]);
    var text := PushedText(isSpace, mode, line, span);
    OneMorePiece(width, isSpace, mode, line, wrapWidth, pieces, spans, Piece(width(text), text), span);
  }

  /** The text up to the next wrap point, in which no other wrap point lies. */
  lemma NextWord(isSpace: char -> bool, mode: WrapMode, line: string, points: seq<nat>, next: nat, start: nat)
    requires AllWrapPoints(isSpace, mode, line, points) && next < |points| && start == if next == 0 then 0
            else points[next - 1]
    ensures start <= points[next] <= |line| && (start < points[next] || line == [])
    ensures forall p :: start < p < points[next] ==> !IsWrapPoint(isSpace, mode, line, p)
    ensures AtBoundary(isSpace, mode, line, start) && AtBoundary(isSpace, mode, line, points[next])
  {
    assert points[next] in points && (next > 0 ==> points[next - 1] in points);
    StartBeforePoints(isSpace, mode, line, points, next);
    NothingBetween(isSpace, mode, line, points, next);
    assert points[next..][0] == points[next];
  }

  lemma AddBrokenWord(width: string -> real, isSpace: char -> bool, line: string, wrapWidth: real,
                      pieces: seq<Piece>, spans: seq<Span>, start: nat, end: nat,
                      broken: seq<Piece>)
    returns (shifted: seq<Span>)
    requires start <= end <= |line| && (start < end || line == []) && '\n' !in line
    requires BrokenUpTo(width, isSpace, Word, line, wrapWidth, pieces, spans, start)
    requires BrokenLines(width, isSpace, line[start..end], Some((wrapWidth, Char)), broken)
    requires forall p :: start < p < end ==> !IsWrapPoint(isSpace, Word, line, p)
    requires AtBoundary(isSpace, Word, line, start) && AtBoundary(isSpace, Word, line, end)
    requires MonotoneWidth(width) ==> wrapWidth < LineWidth(width, isSpace, Word, line, start, end)
    ensures BrokenUpTo(width, isSpace, Word, line, wrapWidth, pieces + broken, shifted, end)
  {
    var word := line[start..end];
    if start == end {
      assert word == [];
      assert pieces + broken == pieces;
      shifted := spans;
    } else {
      BrokenSingleLine(width, isSpace, word, wrapWidth, broken);
      var wordSpans :| BrokenUpTo(width, isSpace, Char, word, wrapWidth, broken, wordSpans, |word|);
      shifted := BrokenWordPieces(width, isSpace, line, wrapWidth, pieces, spans, start, end, broken, wordSpans,
                                  |word|);
    }
  }

  // ---------- Whole texts ----------

  function Flatten(groups: seq<seq<Piece>>): seq<Piece> {
    if groups == [] then [] else Flatten(groups[..|groups| - 1]) + groups[|groups| - 1]
  }

  lemma FlattenAppend(groups: seq<seq<Piece>>, group: seq<Piece>)
    ensures Flatten(groups + [group]) == Flatten(groups) + group
  {
    assert (groups + [group])[..|groups|] == groups;
  }

  lemma FlattenOne(group: seq<Piece>)
    ensures Flatten([group]) == group
  {
    assert [group][..0] == [];
  }

  /** A text without newlines is its own only line. */
  lemma SingleLine(text: string)
    requires text != [] && '\n' !in text
    ensures Lines(text) == [text]
  {
    var i := FindNewline(text);
  }

  /** The pieces of one line of the text. */
  ghost predicate LineBroken(width: string -> real, isSpace: char -> bool, line: string, wrap: Option<(real, WrapMode)>,
                             pieces: seq<Piece>)
  {
    match wrap
    case None => pieces == [Piece(width(line), line)]
    case Some((wrapWidth, mode)) => BrokenUp(width, isSpace, mode, line, wrapWidth, pieces)
  }

  /** The groups are, line by line, the pieces of the first lines. */
  ghost predicate FirstLinesBroken(width: string -> real, isSpace: char -> bool, lines: seq<string>,
                                   wrap: Option<(real, WrapMode)>,
                                   groups: seq<seq<Piece>>)
  {
    |groups| <= |lines| && forall i :: 0 <= i < |groups| ==> LineBroken(width, isSpace, lines[i], wrap, groups[i])
  }

  ghost predicate GroupsOf(width: string -> real, isSpace: char -> bool, text: string, wrap: Option<(real, WrapMode)>,
                           pieces: seq<Piece>, groups: seq<seq<Piece>>)
  {
    pieces == Flatten(groups) && |groups| == |Lines(text)|
        && FirstLinesBroken(width, isSpace, Lines(text), wrap, groups)
  }

  /** The output is, line by line, the pieces of the text's lines. */
  ghost predicate BrokenLines(width: string -> real, isSpace: char -> bool, text: string,
                              wrap: Option<(real, WrapMode)>, pieces: seq<Piece>)
  {
    exists groups :: GroupsOf(width, isSpace, text, wrap, pieces, groups)
  }

  /** The same, whatever tells the lines apart: they are some lines that make up the text with their endings. */
  ghost predicate BreaksText(width: string -> real, isSpace: char -> bool, text: string,
                             wrap: Option<(real, WrapMode)>, pieces: seq<Piece>)
  {
    exists lines, endings, groups ::
      && AreLinesOf(text, lines, endings) && FirstLinesBroken(width, isSpace, lines, wrap, groups)
      && |groups| == |lines| && pieces == Flatten(groups)
  }

  lemma OutputBreaksText(width: string -> real, isSpace: char -> bool, text: string, wrap: Option<(real, WrapMode)>,
                         pieces: seq<Piece>)
    requires BrokenLines(width, isSpace, text, wrap, pieces)
    ensures BreaksText(width, isSpace, text, wrap, pieces)
  {
    var groups :| GroupsOf(width, isSpace, text, wrap, pieces, groups);
    var endings := LinesMakeText(text);
    assert FirstLinesBroken(width, isSpace, Lines(text), wrap, groups);
  }

  lemma {:induction false} LinesHaveNoNewline(text: string)
    ensures forall i :: 0 <= i < |Lines(text)| ==> '\n' !in Lines(text)[i]
    decreases |text|
  {
    if text != [] {
      var i := FindNewline(text);
      if i < |text| {
        LinesHaveNoNewline(text[i + 1..]);
      }
    }
  }

  /** `break_lines` (src/font.rs:349-468). */
  method BreakLines(width: string -> real, isSpace: char -> bool, text: string, wrap: Option<(real, WrapMode)>)
    returns (pieces: seq<Piece>)
    ensures BrokenLines(width, isSpace, text, wrap, pieces)
    ensures BreaksText(width, isSpace, text, wrap, pieces)
    ensures isSpace('\n') && isSpace('\r') ==> Visible(isSpace, JoinTexts(pieces)) == Visible(isSpace, text)
    decreases if wrap.Some? && wrap.value.1.Word? then 1 else 0, 1
  {
    pieces := [];
    ghost var groups: seq<seq<Piece>> := [];
    var lines := Lines(text);
    LinesHaveNoNewline(text);
    for i := 0 to |lines|
      invariant pieces == Flatten(groups) && |groups| == i && FirstLinesBroken(width, isSpace, lines, wrap, groups)
    {
      var broken;
      match wrap {
        case None => broken := [Piece(width(lines[i]), lines[i])];
        case Some((wrapWidth, mode)) => broken := BreakLine(width, isSpace, mode, lines[i], wrapWidth);
      }
      OneMoreGroup(width, isSpace, lines, wrap, groups, broken);
      FlattenAppend(groups, broken);
      pieces := pieces + broken;
      groups := groups + [broken];
    }
    assert GroupsOf(width, isSpace, text, wrap, pieces, groups);
    OutputBreaksText(width, isSpace, text, wrap, pieces);
    if isSpace('\n') && isSpace('\r') {
      WholeTextIsConserved(width, isSpace, text, wrap, pieces);
    }
  }

  lemma OneMoreGroup(width: string -> real, isSpace: char -> bool, lines: seq<string>, wrap: Option<(real, WrapMode)>,
                     groups: seq<seq<Piece>>, broken: seq<Piece>)
    requires FirstLinesBroken(width, isSpace, lines, wrap, groups) && |groups| < |lines|
    requires LineBroken(width, isSpace, lines[|groups|], wrap, broken)
    ensures FirstLinesBroken(width, isSpace, lines, wrap, groups + [broken])
  {
    var longer := groups + [broken];
    forall i | 0 <= i < |longer| ensures LineBroken(width, isSpace, lines[i], wrap, longer[i]) {
      if i < |groups| {
        assert longer[i] == groups[i];
      }
    }
  }

  // ---------- Conservation of text ----------

  function JoinTexts(pieces: seq<Piece>): string {
    if pieces == [] then [] else JoinTexts(pieces[..|pieces| - 1]) + pieces[|pieces| - 1].text
  }

  /** The characters of a string that are not whitespace. */
  function Visible(isSpace: char -> bool, s: string): string {
    if s == [] then [] else (if isSpace(s[0]) then [] else [s[0]]) + Visible(isSpace, s[1..])
  }

  lemma {:induction false} VisibleConcat(isSpace: char -> bool, s: string, t: string)
    ensures Visible(isSpace, s + t) == Visible(isSpace, s) + Visible(isSpace, t)
  {
    if s == [] {
      assert s + t == t;
    } else {
      assert (s + t)[1..] == s[1..] + t;
      VisibleConcat(isSpace, s[1..], t);
    }
  }

  lemma {:induction false} SpacesAreInvisible(isSpace: char -> bool, s: string)
    requires forall i :: 0 <= i < |s| ==> isSpace(s[i])
    ensures Visible(isSpace, s) == []
  {
    if s != [] {
      assert forall i :: 0 <= i < |s[1..]| ==> s[1..][i] == s[i + 1];
      SpacesAreInvisible(isSpace, s[1..]);
    }
  }

  lemma {:induction false} OthersAreVisible(isSpace: char -> bool, s: string)
    requires NoSpace(isSpace, s)
    ensures Visible(isSpace, s) == s
  {
    if s != [] {
      assert NoSpace(isSpace, s[1..]);
      OthersAreVisible(isSpace, s[1..]);
    }
  }

  lemma TrimKeepsVisible(isSpace: char -> bool, s: string)
    ensures Visible(isSpace, TrimEnd(isSpace, s)) == Visible(isSpace, s)
  {
    var r := TrimEnd(isSpace, s);
    TrimDropsSpaces(isSpace, s);
    assert s == r + s[|r|..];
    VisibleConcat(isSpace, r, s[|r|..]);
    SpacesAreInvisible(isSpace, s[|r|..]);
  }

  lemma {:induction false} PrefixConserved(width: string -> real, isSpace: char -> bool, mode: WrapMode, line: string,
                                           wrapWidth: real,
                                           pieces: seq<Piece>, spans: seq<Span>, end: nat)
    requires BrokenUpTo(width, isSpace, mode, line, wrapWidth, pieces, spans, end)
    ensures end <= |line|
    ensures Visible(isSpace, JoinTexts(pieces)) == Visible(isSpace, line[..end])
    ensures mode.Char? ==> JoinTexts(pieces) == line[..end]
    decreases |pieces|
  {
    if pieces != [] {
      var k := |pieces| - 1;
      var span, text := spans[k], pieces[k].text;
      BrokenPrefix(width, isSpace, mode, line, wrapWidth, pieces, spans, end);
      PrefixConserved(width, isSpace, mode, line, wrapWidth, pieces[..k], spans[..k], span.start);
      SpanConserved(isSpace, mode, line, text, span, JoinTexts(pieces[..k]));
    }
  }

  /** The text of a span conserves it. */
  lemma SpanConserved(isSpace: char -> bool, mode: WrapMode, line: string, text: string, span: Span, before: string)
    requires TextOf(isSpace, mode, line, text, span)
    requires Visible(isSpace, before) == Visible(isSpace, line[..span.start])
    requires mode.Char? ==> before == line[..span.start]
    ensures Visible(isSpace, before + text) == Visible(isSpace, line[..span.end])
    ensures mode.Char? ==> before + text == line[..span.end]
  {
    assert line[..span.end] == line[..span.start] + line[span.start..span.end];
    VisibleConcat(isSpace, line[..span.start], line[span.start..span.end]);
    VisibleConcat(isSpace, before, text);
    TrimKeepsVisible(isSpace, line[span.start..span.end]);
  }

  /**
   Breaking a line conserves its text: every visible character comes out once and in order, and in
   character mode the pieces joined together are the line itself.
   */
  lemma TextIsConserved(width: string -> real, isSpace: char -> bool, mode: WrapMode, line: string, wrapWidth: real,
                        pieces: seq<Piece>)
    requires BrokenUp(width, isSpace, mode, line, wrapWidth, pieces)
    ensures Visible(isSpace, JoinTexts(pieces)) == Visible(isSpace, line)
    ensures mode.Char? ==> JoinTexts(pieces) == line
  {
    var spans :| BrokenUpTo(width, isSpace, mode, line, wrapWidth, pieces, spans, |line|);
    PrefixConserved(width, isSpace, mode, line, wrapWidth, pieces, spans, |line|);
    assert line[..|line|] == line;
  }

  /**
   With a prefix-monotone width, every piece fits or is one character: in character mode as it is, in
   word mode once its trailing whitespace is ignored.
   */
  lemma EveryPieceFits(width: string -> real, isSpace: char -> bool, mode: WrapMode, line: string, wrapWidth: real,
                       pieces: seq<Piece>, k: nat)
    requires BrokenUp(width, isSpace, mode, line, wrapWidth, pieces) && MonotoneWidth(width) && k < |pieces|
    ensures FitsOrSingle(width, isSpace, mode, wrapWidth, pieces[k].text) && pieces[k].width == width(pieces[k].text)
  {
    var spans :| BrokenUpTo(width, isSpace, mode, line, wrapWidth, pieces, spans, |line|);
    assert GoodPiece(width, isSpace, mode, line, wrapWidth, pieces[k], spans[k]);
  }

  // ---------- Conservation of the whole text ----------

  lemma {:induction false} JoinConcat(pieces: seq<Piece>, more: seq<Piece>)
    ensures JoinTexts(pieces + more) == JoinTexts(pieces) + JoinTexts(more)
    decreases more
  {
    if more == [] {
      assert pieces + more == pieces;
    } else {
      var k := |more| - 1;
      assert (pieces + more)[..|pieces| + k] == pieces + more[..k];
      JoinConcat(pieces, more[..k]);
    }
  }

  /** The lines without what ends them. */
  function Joined(lines: seq<string>): string {
    if lines == [] then [] else Joined(lines[..|lines| - 1]) + lines[|lines| - 1]
  }

  lemma {:induction false} JoinedFront(line: string, lines: seq<string>)
    ensures Joined([line] + lines) == line + Joined(lines)
    decreases lines
  {
    if lines == [] {
      assert ([line] + lines)[..0] == [];
    } else {
      var k := |lines| - 1;
      assert ([line] + lines)[..k + 1] == [line] + lines[..k];
      JoinedFront(line, lines[..k]);
    }
  }

  /** Line endings are whitespace. */
  lemma {:induction false} EndingsAreInvisible(isSpace: char -> bool, text: string, lines: seq<string>,
                                               endings: seq<string>)
    requires isSpace('\n') && isSpace('\r') && AreLinesOf(text, lines, endings)
    ensures Visible(isSpace, text) == Visible(isSpace, Joined(lines))
    decreases lines
  {
    if lines != [] {
      var line, ending, n := lines[0], endings[0], |lines[0] + endings[0]|;
      RestOfLines(text, lines, endings);
      assert EndsLine(line, ending, |lines| == 1);
      EndingsAreInvisible(isSpace, text[n..], lines[1..], endings[1..]);
      assert text == (line + ending) + text[n..] && lines == [line] + lines[1..];
      JoinedFront(line, lines[1..]);
      VisibleConcat(isSpace, line + ending, text[n..]);
      VisibleConcat(isSpace, line, ending);
      VisibleConcat(isSpace, line, Joined(lines[1..]));
      SpacesAreInvisible(isSpace, ending);
    }
  }

  lemma LineConserved(width: string -> real, isSpace: char -> bool, line: string, wrap: Option<(real, WrapMode)>,
                      pieces: seq<Piece>)
    requires LineBroken(width, isSpace, line, wrap, pieces)
    ensures Visible(isSpace, JoinTexts(pieces)) == Visible(isSpace, line)
  {
    match wrap
    case None =>
      assert JoinTexts(pieces) == JoinTexts(pieces[..0]) + line == line;
    case Some((wrapWidth, mode)) => TextIsConserved(width, isSpace, mode, line, wrapWidth, pieces);
  }

  lemma {:induction false} GroupsConserved(width: string -> real, isSpace: char -> bool, lines: seq<string>,
                                           wrap: Option<(real, WrapMode)>, groups: seq<seq<Piece>>)
    requires FirstLinesBroken(width, isSpace, lines, wrap, groups)
    ensures Visible(isSpace, JoinTexts(Flatten(groups))) == Visible(isSpace, Joined(lines[..|groups|]))
    decreases groups
  {
    if groups != [] {
      var k := |groups| - 1;
      GroupsConserved(width, isSpace, lines, wrap, groups[..k]);
      assert LineBroken(width, isSpace, lines[k], wrap, groups[k]);
      LineConserved(width, isSpace, lines[k], wrap, groups[k]);
      JoinConcat(Flatten(groups[..k]), groups[k]);
      assert lines[..k + 1][..k] == lines[..k];
      VisibleConcat(isSpace, JoinTexts(Flatten(groups[..k])), JoinTexts(groups[k]));
      VisibleConcat(isSpace, Joined(lines[..k]), lines[k]);
    }
  }

  /** Every visible character of the text comes out once and in order. */
  lemma WholeTextIsConserved(width: string -> real, isSpace: char -> bool, text: string,
                             wrap: Option<(real, WrapMode)>, pieces: seq<Piece>)
    requires isSpace('\n') && isSpace('\r') && BrokenLines(width, isSpace, text, wrap, pieces)
    ensures Visible(isSpace, JoinTexts(pieces)) == Visible(isSpace, text)
  {
    var groups :| GroupsOf(width, isSpace, text, wrap, pieces, groups);
    var endings := LinesMakeText(text);
    GroupsConserved(width, isSpace, Lines(text), wrap, groups);
    EndingsAreInvisible(isSpace, text, Lines(text), endings);
    assert Lines(text)[..|groups|] == Lines(text);
  }

  /** Without wrapping, the output is exactly the lines of the text, however they are told apart. */
  lemma UnwrappedLines(width: string -> real, isSpace: char -> bool, text: string, pieces: seq<Piece>,
                       lines: seq<string>, endings: seq<string>)
    requires BrokenLines(width, isSpace, text, None, pieces) && AreLinesOf(text, lines, endings)
    ensures pieces == seq(|lines|, i requires 0 <= i < |lines| => Piece(width(lines[i]), lines[i]))
  {
    LinesAreUnique(text, lines, endings);
    var groups :| GroupsOf(width, isSpace, text, None, pieces, groups);
    SinglePieces(width, isSpace, lines, groups);
    assert lines[..|groups|] == lines;
  }

  lemma {:induction false} SinglePieces(width: string -> real, isSpace: char -> bool, lines: seq<string>,
                                        groups: seq<seq<Piece>>)
    requires FirstLinesBroken(width, isSpace, lines, None, groups)
    ensures Flatten(groups) ==
            seq(|groups|, i requires 0 <= i < |groups| => Piece(width(lines[i]), lines[i]))
    decreases groups
  {
    if groups != [] {
      var k := |groups| - 1;
      SinglePieces(width, isSpace, lines, groups[..k]);
      assert LineBroken(width, isSpace, lines[k], None, groups[k]);
    }
  }

  /**
   In word mode with a prefix-monotone width, a piece ends in whitespace only if it ends the line, or
   belongs to a word that is too wide.
   */
  lemma NoSpaceAtBreaks(width: string -> real, isSpace: char -> bool, line: string, wrapWidth: real,
                        piece: Piece, span: Span)
    requires GoodPiece(width, isSpace, Word, line, wrapWidth, piece, span) && MonotoneWidth(width)
    requires span.end < |line| && AtBoundary(isSpace, Word, line, span.start)
            && AtBoundary(isSpace, Word, line, span.end)
    requires width(TrimEnd(isSpace, line[span.start..span.end])) <= wrapWidth
    ensures piece.text <= line[span.start..span.end]
    ensures piece.text == [] || !isSpace(piece.text[|piece.text| - 1])
  {
    TrimmedEnd(isSpace, line[span.start..span.end]);
  }

  lemma {:induction false} TrimmedEnd(isSpace: char -> bool, s: string)
    ensures var r := TrimEnd(isSpace, s); r == [] || !isSpace(r[|r| - 1])
  {
    if s != [] && isSpace(s[|s| - 1]) {
      TrimmedEnd(isSpace, s[..|s| - 1]);
    }
  }

  // ---------- Words and lines ----------

  predicate NoSpace(isSpace: char -> bool, s: string) {
    forall i :: 0 <= i < |s| ==> !isSpace(s[i])
  }

  /** Every word fits on a line of its own. */
  ghost predicate WordsFit(width: string -> real, isSpace: char -> bool, line: string, wrapWidth: real) {
    forall from: nat, to: nat :: from <= to <= |line| && NoSpace(isSpace, line[from..to]) ==>
        width(line[from..to]) <= wrapWidth
  }

  /** A word starts here, or the line is over. */
  predicate WordStarts(isSpace: char -> bool, line: string, p: nat) {
    p == |line| || (0 < p < |line| && isSpace(line[p - 1]) && !isSpace(line[p]))
  }

  /** Behind a space, the next character that is none starts a word. */
  lemma {:induction false} WordBehindSpace(isSpace: char -> bool, s: string, i: nat, j: nat) returns (p: nat)
    requires i < j < |s| && isSpace(s[i]) && !isSpace(s[j])
    ensures i < p <= j && isSpace(s[p - 1]) && !isSpace(s[p])
    decreases j - i
  {
    if isSpace(s[i + 1]) {
      p := WordBehindSpace(isSpace, s, i + 1, j);
    } else {
      p := i + 1;
    }
  }

  /** Between neighbouring word boundaries lies one word with the whitespace behind it. */
  lemma OneWord(isSpace: char -> bool, line: string, from: nat, to: nat)
    requires from < to <= |line| && forall p :: from < p < to ==> !IsWrapPoint(isSpace, Word, line, p)
    ensures NoSpace(isSpace, TrimEnd(isSpace, line[from..to]))
  {
    var r := TrimEnd(isSpace, line[from..to]);
    TrimmedEnd(isSpace, line[from..to]);
    forall i | 0 <= i < |r| ensures !isSpace(r[i]) {
      if isSpace(r[i]) {
        var p := WordBehindSpace(isSpace, r, i, |r| - 1);
        assert r[p - 1] == line[from + p - 1] && r[p] == line[from + p];
        assert IsWrapPoint(isSpace, Word, line, from + p);
      }
    }
  }

  lemma TrimmedSlice(isSpace: char -> bool, line: string, from: nat, to: nat)
    requires from <= to <= |line|
    ensures var r := TrimEnd(isSpace, line[from..to]); from + |r| <= to && r == line[from..from + |r|]
  {
    var r := TrimEnd(isSpace, line[from..to]);
    assert r == line[from..to][..|r|];
  }

  /**
   If every word fits, no word is broken up: in word mode every piece starts where the line or a word does, and
   ends where the next word starts or with the line.
   */
  lemma WordsStayWhole(width: string -> real, isSpace: char -> bool, line: string, wrapWidth: real, piece: Piece,
                       span: Span)
    requires GoodPiece(width, isSpace, Word, line, wrapWidth, piece, span) && MonotoneWidth(width)
    requires WordsFit(width, isSpace, line, wrapWidth)
    ensures span.start == 0 || WordStarts(isSpace, line, span.start)
    ensures span.end == 0 || WordStarts(isSpace, line, span.end)
  {
    if from: nat, to: nat :| PartOf(width, isSpace, line, wrapWidth, piece.text, span, from, to) {
      OneWord(isSpace, line, from, to);
      TrimmedSlice(isSpace, line, from, to);
    }
  }

  /** Then every line holds as many words as fit: with any later word it would be too wide, or just as wide. */
  lemma LinesAreFilled(width: string -> real, isSpace: char -> bool, line: string, wrapWidth: real, piece: Piece,
                       span: Span, q: nat)
    requires GoodPiece(width, isSpace, Word, line, wrapWidth, piece, span) && MonotoneWidth(width)
    requires WordsFit(width, isSpace, line, wrapWidth) && span.end < q && WordStarts(isSpace, line, q)
    ensures span.start <= span.end <= |line| && width(TrimEnd(isSpace, line[span.start..span.end])) <= wrapWidth
    ensures wrapWidth <= width(TrimEnd(isSpace, line[span.start..q]))
  {
    WordsStayWhole(width, isSpace, line, wrapWidth, piece, span);
    SpanFits(width, isSpace, line, wrapWidth, piece.text, span);
    assert IsWrapPoint(isSpace, Word, line, q);
  }

  lemma SpanFits(width: string -> real, isSpace: char -> bool, line: string, wrapWidth: real, text: string, span: Span)
    requires TextOf(isSpace, Word, line, text, span) && FitsOrSingle(width, isSpace, Word, wrapWidth, text)
    requires WordsFit(width, isSpace, line, wrapWidth)
    ensures width(TrimEnd(isSpace, line[span.start..span.end])) <= wrapWidth
  {
    var r := TrimEnd(isSpace, line[span.start..span.end]);
    TrimTwice(isSpace, line[span.start..span.end]);
    assert TrimEnd(isSpace, text) == r;
    if |text| <= 1 {
      TrimmedEnd(isSpace, text);
      TrimmedSlice(isSpace, line, span.start, span.end);
      assert NoSpace(isSpace, line[span.start..span.start + |r|]);
    }
  }
}
