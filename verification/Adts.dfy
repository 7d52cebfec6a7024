/**
 ADTS framing of AAC packets (`src/audio.rs`): the frame writer used for CAF files and the parser of
 ADTS streams. The header is the one of ISO/IEC 14496-3, section 1.A.2.2; its bit fields do not overlap,
 so they can be combined by addition (`HeaderIsOr`).
 */
module Adts {
  import opened Wrappers
  import opened BitFields
  import opened GuestMemory

  const SAMPLE_RATES: seq<nat> := [
    96000, 88200, 64000, 48000, 44100, 32000, 24000, 22050, 16000, 12000, 11025, 8000, 7350
  ]
  const MAX_FRAME_LENGTH := 0x1FFF

  predicate Ascending(b: seq<nat>) {
    forall i, j :: 0 <= i < j < |b| ==> b[i] < b[j]
  }

  datatype AacPackets = AacPackets(sampleRate: nat, channels: nat, bytes: seq<byte>, offsets: seq<nat>)
  {
    predicate Valid() {
      && |offsets| > 0 && offsets[0] == 0 && offsets[|offsets| - 1] == |bytes|
      && Ascending(offsets)
    }

    function PacketCount(): int {
      |offsets| - 1
    }

    /** The bytes of the packet that `packet_info` describes (src/audio.rs:75-83). */
    function Packet(i: nat): seq<byte>
      requires Valid() && i < PacketCount()
    {
      assert offsets[i] < offsets[i + 1];
      assert i + 1 < |offsets| - 1 ==> offsets[i + 1] < offsets[|offsets| - 1];
      bytes[offsets[i]..offsets[i + 1]]
    }

    function FirstPackets(n: nat): seq<byte>
      requires Valid() && n <= PacketCount()
    {
      if n == 0 then [] else FirstPackets(n - 1) + Packet(n - 1)
    }

    /** The packets tile the bytes. */
    lemma {:induction false} PacketsTile(n: nat)
      requires Valid() && n <= PacketCount()
      ensures offsets[n] <= |bytes| && FirstPackets(n) == bytes[..offsets[n]]
    {
      assert n < PacketCount() ==> offsets[n] < offsets[|offsets| - 1];
      if n > 0 {
        PacketsTile(n - 1);
        assert offsets[n - 1] < offsets[n];
        assert bytes[..offsets[n]] == bytes[..offsets[n - 1]] + bytes[offsets[n - 1]..offsets[n]];
      }
    }

    /** `packet_size_upper_bound` (src/audio.rs:65-71). */
    method PacketSizeUpperBound() returns (bound: nat)
      requires Valid()
      ensures forall i :: 0 <= i < PacketCount() ==> |Packet(i)| <= bound
      ensures if PacketCount() == 0 then bound == 0 else exists i :: 0 <= i < PacketCount() && |Packet(i)| == bound
    {
      bound := 0;
      var n := 1;
      while n < |offsets|
        invariant 1 <= n <= |offsets|
        invariant forall i :: 0 <= i < n - 1 ==> |Packet(i)| <= bound
        invariant if n == 1 then bound == 0 else exists i :: 0 <= i < n - 1 && |Packet(i)| == bound
      {
        assert |Packet(n - 1)| == offsets[n] - offsets[n - 1];
        if offsets[n] - offsets[n - 1] > bound {
          bound := offsets[n] - offsets[n - 1];
        }
        n := n + 1;
      }
    }
  }

  // ---------- Header fields ----------

  /** `adts_header`. */
  function Header(rateIndex: nat, channels: nat, payloadLength: nat): (h: seq<byte>)
    requires rateIndex < 13 && channels < 8
    ensures |h| == 7
  {
    var n := payloadLength + 7;
    [0xFF, 0xF1, 0x40 + 4 * rateIndex + channels / 4, channels % 4 * 0x40 + n / 0x800 % 4,
     n / 8 % 0x100, n % 8 * 0x20 + 0x1F, 0xFC]
  }

  /** The bytes of the header are the ors of their fields, as the source combines them, and the constants. */
  lemma HeaderIsOr(rateIndex: nat, channels: nat, payloadLength: nat)
    requires rateIndex < 13 && channels < 8
    ensures var h, n := Header(rateIndex, channels, payloadLength), payloadLength + 7;
            && h[2] == BitOr(BitOr(0x40, 4 * rateIndex), channels / 4)
            && h[3] == BitOr(0x40 * (channels % 4), n / 0x800 % 4)
            && h[5] == BitOr(0x20 * (n % 8), 0x1F)
            && h[0] == 0xFF && h[1] == 0xF1 && h[4] == n / 8 % 0x100 && h[6] == 0xFC
  {
    var n := payloadLength + 7;
    RateByteIsOr(1, rateIndex, channels / 4);
    ChannelByteIsOr(channels % 4, n / 0x800 % 4);
    LengthByteIsOr(n % 8, 0x1F);
  }

  lemma RateByteIsOr(profile: nat, rateIndex: nat, high: nat)
    requires rateIndex < 16 && high < 4
    ensures BitOr(BitOr(0x40 * profile, 4 * rateIndex), high) == 0x40 * profile + 4 * rateIndex + high
  {
    PowersUsed();
    BitOrClearField(profile, 4 * rateIndex, 6);
    BitOrClearField(16 * profile + rateIndex, high, 2);
  }

  lemma ChannelByteIsOr(channels: nat, high: nat)
    requires high < 4
    ensures BitOr(0x40 * channels, high) == 0x40 * channels + high
  {
    PowersUsed();
    BitOrClearField(channels, high, 6);
  }

  lemma LengthByteIsOr(low: nat, fullness: nat)
    requires fullness < 0x20
    ensures BitOr(0x20 * low, fullness) == 0x20 * low + fullness
  {
    PowersUsed();
    BitOrClearField(low, fullness, 5);
  }

  predicate Synchronised(h: seq<byte>)
    requires |h| == 7
  {
    h[0] == 0xFF && h[1] >= 0xF0
  }

  function HeaderSize(h: seq<byte>): nat
    requires |h| == 7
  {
    if h[1] % 2 == 1 then 7 else 9
  }

  function RateField(h: seq<byte>): nat
    requires |h| == 7
  {
    h[2] / 4 % 16
  }

  function ChannelField(h: seq<byte>): nat
    requires |h| == 7
  {
    h[2] % 2 * 4 + h[3] / 0x40
  }

  function LengthField(h: seq<byte>): nat
    requires |h| == 7
  {
    h[3] % 4 * 0x800 + h[4] as int * 8 + h[5] / 0x20
  }

  lemma LengthBits(n: nat)
    ensures n / 0x800 % 4 * 0x800 + n / 8 % 0x100 * 8 + n % 8 == n % 0x2000
  {
    var high, low := n / 0x800, n % 0x800;
    Quotient8(n, 0x100 * high + low / 8, low % 8);
    Quotient100(0x100 * high + low / 8, high, low / 8);
    Quotient2000(n, high / 4, 0x800 * (high % 4) + low);
  }

  lemma Quotient8(n: nat, q: nat, r: nat)
    requires n == 8 * q + r && r < 8
    ensures n / 8 == q && n % 8 == r
  {
  }

  lemma Quotient100(n: nat, q: nat, r: nat)
    requires n == 0x100 * q + r && r < 0x100
    ensures n / 0x100 == q && n % 0x100 == r
  {
  }

  lemma Quotient2000(n: nat, q: nat, r: nat)
    requires n == 0x2000 * q + r && r < 0x2000
    ensures n / 0x2000 == q && n % 0x2000 == r
  {
  }

  /** The fields of a header read back; the length exactly when it fits its 13 bits. */
  lemma HeaderFields(rateIndex: nat, channels: nat, payloadLength: nat)
    requires rateIndex < 13 && channels < 8
    ensures var h := Header(rateIndex, channels, payloadLength);
            && Synchronised(h) && HeaderSize(h) == 7
            && RateField(h) == rateIndex && ChannelField(h) == channels
            && (LengthField(h) == payloadLength + 7 <==> payloadLength + 7 <= MAX_FRAME_LENGTH)
  {
    var n := payloadLength + 7;
    LengthBits(n);
    RateByteFields(rateIndex, channels / 4);
    ChannelByteFields(channels % 4, n / 0x800 % 4);
    LengthByteField(n % 8);
    LengthFits(n);
  }

  lemma RateByteFields(rateIndex: nat, high: nat)
    requires rateIndex < 16 && high < 2
    ensures (0x40 + 4 * rateIndex + high) / 4 % 16 == rateIndex && (0x40 + 4 * rateIndex + high) % 2 == high
  {
  }

  lemma ChannelByteFields(channels: nat, high: nat)
    requires high < 4
    ensures (channels * 0x40 + high) % 4 == high && (channels * 0x40 + high) / 0x40 == channels
  {
    LowBits(channels * 0x40 + high, 16 * channels, high);
    HighBits(channels * 0x40 + high, channels, high);
  }

  lemma LowBits(n: nat, q: nat, r: nat)
    requires n == 4 * q + r && r < 4
    ensures n % 4 == r
  {
  }

  lemma HighBits(n: nat, q: nat, r: nat)
    requires n == 0x40 * q + r && r < 0x40
    ensures n / 0x40 == q
  {
  }

  lemma LengthByteField(low: nat)
    ensures (low * 0x20 + 0x1F) / 0x20 == low
  {
  }

  lemma LengthFits(n: nat)
    ensures n % 0x2000 == n <==> n <= MAX_FRAME_LENGTH
  {
  }

  // ---------- The parser ----------

  /** The length of the whole frame that starts `s`, or 0 if none does. */
  function FrameLength(s: seq<byte>): (n: nat)
    ensures n <= |s| && (n > 0 ==> n >= 7)
  {
    if 7 <= |s| && Synchronised(s[..7]) && HeaderSize(s[..7]) <= LengthField(s[..7]) <= |s|
    then LengthField(s[..7]) else 0
  }

  /** Where the frames from `pos` on begin, and where the last of them ends. */
  function FrameBoundaries(s: seq<byte>, pos: nat): (offsets: seq<nat>)
    requires pos <= |s|
    ensures |offsets| > 0 && offsets[0] == pos
    decreases |s| - pos
  {
    var n := FrameLength(s[pos..]);
    if n > 0 then [pos] + FrameBoundaries(s, pos + n) else [pos]
  }

  /** Between `from` and `to` lies exactly one frame. */
  predicate IsFrame(s: seq<byte>, from: nat, to: nat) {
    from < to <= |s| && FrameLength(s[from..]) == to - from
  }

  predicate DelimitFrames(s: seq<byte>, b: seq<nat>) {
    forall i :: 0 <= i < |b| - 1 ==> IsFrame(s, b[i], b[i + 1])
  }

  /** Successive boundaries delimit frames, and after the last boundary there is none. */
  lemma {:induction false} BoundariesDelimitFrames(s: seq<byte>, pos: nat)
    requires pos <= |s|
    ensures var b := FrameBoundaries(s, pos);
            b[|b| - 1] <= |s| && FrameLength(s[b[|b| - 1]..]) == 0 && Ascending(b) && DelimitFrames(s, b)
    decreases |s| - pos
  {
    var n := FrameLength(s[pos..]);
    if n > 0 {
      BoundariesDelimitFrames(s, pos + n);
      var rest := FrameBoundaries(s, pos + n);
      PrependBoundary(s, pos, rest);
      assert FrameBoundaries(s, pos) == [pos] + rest;
    }
  }

  lemma PrependBoundary(s: seq<byte>, pos: nat, rest: seq<nat>)
    requires rest != [] && Ascending(rest) && DelimitFrames(s, rest) && IsFrame(s, pos, rest[0])
    ensures var b := [pos] + rest; Ascending(b) && DelimitFrames(s, b)
  {
    var b := [pos] + rest;
    forall i | 0 <= i < |b| - 1 ensures IsFrame(s, b[i], b[i + 1]) {
      assert b[i + 1] == rest[i] && (i > 0 ==> b[i] == rest[i - 1] && b[i + 1] == rest[i - 1 + 1]);
    }
  }

  lemma BoundariesAscend(s: seq<byte>)
    ensures var b := FrameBoundaries(s, 0); Ascending(b) && b[|b| - 1] <= |s|
  {
    BoundariesDelimitFrames(s, 0);
  }

  function SampleRate(rateField: nat): nat {
    if rateField < |SAMPLE_RATES| then SAMPLE_RATES[rateField] else 44100
  }

  function Channels(channelField: nat): nat {
    if channelField == 0 then 2 else channelField
  }

  /** What a stream that starts with header `h` is played at. */
  predicate Described(h: seq<byte>, sampleRate: nat, channels: nat)
    requires |h| == 7
  {
    sampleRate == SampleRate(RateField(h)) && channels == Channels(ChannelField(h))
  }

  lemma FrameLengthFrom(s: seq<byte>, pos: nat)
    requires pos + 7 <= |s|
    ensures var h := s[pos..pos + 7];
            FrameLength(s[pos..]) ==
            if Synchronised(h) && HeaderSize(h) <= LengthField(h) && pos + LengthField(h) <= |s|
                then LengthField(h) else 0
    ensures pos == 0 ==> s[pos..] == s && s[pos..pos + 7] == s[..7]
  {
    assert s[pos..][..7] == s[pos..pos + 7];
  }

  /** Boundary `k` lies within the input; the frame that starts there leads to the next boundary, if there is one. */
  lemma {:induction false} FrameAtBoundary(s: seq<byte>, pos: nat, k: nat)
    requires pos <= |s| && k < |FrameBoundaries(s, pos)|
    ensures var (b, at) := (FrameBoundaries(s, pos), FrameBoundaries(s, pos)[k]);
            && at <= |s| && (FrameLength(s[at..]) > 0 <==> k + 1 < |b|)
            && (k + 1 < |b| ==> b[k + 1] == at + FrameLength(s[at..]))
    decreases k
  {
    var n := FrameLength(s[pos..]);
    if n > 0 {
      var rest := FrameBoundaries(s, pos + n);
      assert FrameBoundaries(s, pos) == [pos] + rest;
      if k > 0 {
        FrameAtBoundary(s, pos + n, k - 1);
      }
    }
  }

  /** The packets are the frames that follow each other from the start of `s`, played as the first one says. */
  ghost predicate HoldsFrames(p: AacPackets, s: seq<byte>) {
    && p.Valid() && p.offsets == FrameBoundaries(s, 0)
    && |p.bytes| <= |s| && p.bytes == s[..|p.bytes|]
    && |s| >= 7 && Described(s[..7], p.sampleRate, p.channels)
  }

  predicate HasFrame(s: seq<byte>) {
    |FrameBoundaries(s, 0)| > 1
  }

  lemma HasFrameInFront(s: seq<byte>)
    ensures HasFrame(s) <==> FrameLength(s) > 0
  {
    assert s[0..] == s;
  }

  /** The checks of one turn of the parser's loop (src/audio.rs:574-582, 593-599). */
  method NextFrame(s: seq<byte>, pos: nat, ghost k: nat) returns (synchronised: bool, length: Option<nat>)
    requires pos + 7 <= |s| && k < |FrameBoundaries(s, 0)| && FrameBoundaries(s, 0)[k] == pos
    ensures var b := FrameBoundaries(s, 0);
            && (length.Some? <==> k + 1 < |b|)
            && (length.Some? ==> length.value > 0 && pos + length.value <= |s| && b[k + 1] == pos + length.value)
    ensures length.Some? ==> synchronised
  {
    var h := s[pos..pos + 7];
    FrameAtBoundary(s, 0, k);
    FrameLengthFrom(s, pos);
    synchronised := h[0] == 0xFF && h[1] >= 0xF0;
    var headerSize := if h[1] % 2 != 0 then 7 else 9;
    var frameLength := h[3] % 4 * 0x800 + h[4] as int * 8 + h[5] / 0x20;
    if !synchronised || frameLength < headerSize || pos + frameLength > |s| {
      length := None;
    } else {
      length := Some(frameLength);
    }
  }

  // ---------- Streams, byte by byte ----------

  /**
   One frame: the sync word, any profile and protection, and a length field, the 13 bits over bytes 3 to
   5, that is the frame's length and not less than its header's.
   */
  predicate IsAdtsFrame(f: seq<byte>) {
    && |f| >= 7 && f[0] == 0xFF && f[1] >= 0xF0 && (f[1] % 2 == 0 ==> |f| >= 9)
    && f[3] % 4 * 0x800 + f[4] as int * 8 + f[5] / 0x20 == |f|
  }

  ghost predicate StartsWithFrame(s: seq<byte>) {
    exists n: nat :: n <= |s| && IsAdtsFrame(s[..n])
  }

  function Stream(frames: seq<seq<byte>>): seq<byte> {
    if frames == [] then [] else frames[0] + Stream(frames[1..])
  }

  /** The input is these frames and a rest that starts with none. */
  ghost predicate Divides(s: seq<byte>, frames: seq<seq<byte>>, rest: seq<byte>) {
    && s == Stream(frames) + rest && !StartsWithFrame(rest)
    && forall k :: 0 <= k < |frames| ==> IsAdtsFrame(frames[k])
  }

  /** The packets are the frames, with the rate and the number of channels that the first one tells. */
  ghost predicate Delivers(p: AacPackets, frames: seq<seq<byte>>) {
    && p.Valid() && p.bytes == Stream(frames) && p.PacketCount() == |frames| > 0
    && (forall k :: 0 <= k < |frames| ==> p.Packet(k) == frames[k])
    && |frames[0]| >= 7
    && var f, rate := frames[0], frames[0][2] / 4 % 16;
       && p.sampleRate == (if rate < 13 then SAMPLE_RATES[rate] else 44100)
       && p.channels == (if f[2] % 2 == 0 && f[3] < 0x40 then 2 else f[2] % 2 * 4 + f[3] / 0x40)
  }

  lemma FrameIsMeasured(f: seq<byte>, rest: seq<byte>)
    requires IsAdtsFrame(f)
    ensures FrameLength(f + rest) == |f|
  {
    assert (f + rest)[..7] == f[..7];
  }

  lemma MeasuredIsFrame(s: seq<byte>)
    ensures FrameLength(s) > 0 ==> IsAdtsFrame(s[..FrameLength(s)])
    ensures StartsWithFrame(s) <==> FrameLength(s) > 0
  {
    if n: nat :| n <= |s| && IsAdtsFrame(s[..n]) {
      FrameIsMeasured(s[..n], s[n..]);
      assert s[..n] + s[n..] == s;
    }
    if FrameLength(s) > 0 {
      var f := s[..FrameLength(s)];
      assert f[..7] == s[..7];
      assert IsAdtsFrame(f);
    }
  }

  /** Every input is divided so, in one way. */
  lemma {:induction false} EveryInputDivides(s: seq<byte>) returns (frames: seq<seq<byte>>, rest: seq<byte>)
    ensures Divides(s, frames, rest)
    decreases |s|
  {
    MeasuredIsFrame(s);
    var n := FrameLength(s);
    if n == 0 {
      frames, rest := [], s;
      assert Stream(frames) + rest == s;
    } else {
      frames, rest := EveryInputDivides(s[n..]);
      assert s == s[..n] + (Stream(frames) + rest);
      frames := [s[..n]] + frames;
      assert frames[1..] + [] == frames[1..];
    }
  }

  lemma NextDivides(s: seq<byte>, frames: seq<seq<byte>>, rest: seq<byte>)
    requires Divides(s, frames, rest) && frames != []
    ensures |frames[0]| <= |s| && s[..|frames[0]|] == frames[0] && Divides(s[|frames[0]|..], frames[1..], rest)
    ensures FrameLength(s) == |frames[0]|
  {
    FrameIsMeasured(frames[0], Stream(frames[1..]) + rest);
    assert s == frames[0] + (Stream(frames[1..]) + rest);
  }

  predicate IsSlice(s: seq<byte>, from: nat, to: nat, part: seq<byte>) {
    from <= to <= |s| && s[from..to] == part
  }

  lemma SlicesJoin(s: seq<byte>, from: nat, middle: nat, to: nat, left: seq<byte>, right: seq<byte>)
    requires IsSlice(s, from, middle, left) && IsSlice(s, middle, to, right)
    ensures IsSlice(s, from, to, left + right)
  {
  }

  /** The parser's boundaries are where the frames begin and end. */
  lemma {:induction false} BoundariesAreFrames(s: seq<byte>, pos: nat, frames: seq<seq<byte>>, rest: seq<byte>)
    requires pos <= |s| && Divides(s[pos..], frames, rest)
    ensures Bounds(s, FrameBoundaries(s, pos), frames)
    decreases frames
  {
    MeasuredIsFrame(s[pos..]);
    if frames == [] {
      assert s[pos..] == rest;
    } else {
      var n := |frames[0]|;
      NextDivides(s[pos..], frames, rest);
      assert s[pos..][n..] == s[pos + n..] && s[pos..][..n] == s[pos..pos + n];
      BoundariesAreFrames(s, pos + n, frames[1..], rest);
      PrependFrame(s, pos, frames, FrameBoundaries(s, pos + n));
    }
  }

  ghost predicate Bounds(s: seq<byte>, b: seq<nat>, frames: seq<seq<byte>>) {
    && |b| == |frames| + 1 && IsSlice(s, b[0], b[|frames|], Stream(frames))
    && forall k :: 0 <= k < |frames| ==> IsSlice(s, b[k], b[k + 1], frames[k])
  }

  lemma PrependFrame(s: seq<byte>, pos: nat, frames: seq<seq<byte>>, more: seq<nat>)
    requires frames != [] && Bounds(s, more, frames[1..]) && IsSlice(s, pos, more[0], frames[0])
    ensures Bounds(s, [pos] + more, frames)
  {
    var b := [pos] + more;
    SlicesJoin(s, pos, more[0], more[|frames| - 1], frames[0], Stream(frames[1..]));
    forall k | 0 <= k < |frames| ensures IsSlice(s, b[k], b[k + 1], frames[k]) {
      if k > 0 {
        assert IsSlice(s, more[k - 1], more[k - 1 + 1], frames[1..][k - 1]);
      }
    }
  }

  lemma FramesAreDelivered(p: AacPackets, s: seq<byte>, frames: seq<seq<byte>>, rest: seq<byte>)
    requires HoldsFrames(p, s) && Divides(s, frames, rest) && frames != []
    ensures Delivers(p, frames)
  {
    assert s[0..] == s;
    BoundariesAreFrames(s, 0, frames, rest);
    NextDivides(s, frames, rest);
    assert frames[0][..7] == s[..7];
    assert p.bytes == s[0..p.offsets[|frames|]];
    forall k | 0 <= k < |frames| ensures p.Packet(k) == frames[k] {
      assert IsSlice(s, p.offsets[k], p.offsets[k + 1], frames[k]);
      PacketIsSlice(p, s, k);
    }
  }

  lemma PacketIsSlice(p: AacPackets, s: seq<byte>, k: nat)
    requires HoldsFrames(p, s) && k < p.PacketCount()
    ensures p.offsets[k] <= p.offsets[k + 1] <= |s| && p.Packet(k) == s[p.offsets[k]..p.offsets[k + 1]]
  {
    assert p.offsets[k] < p.offsets[k + 1];
    assert k + 1 < |p.offsets| - 1 ==> p.offsets[k + 1] < p.offsets[|p.offsets| - 1];
  }

  lemma DivisionDecides(s: seq<byte>, frames: seq<seq<byte>>, rest: seq<byte>)
    requires Divides(s, frames, rest)
    ensures HasFrame(s) <==> frames != []
  {
    HasFrameInFront(s);
    MeasuredIsFrame(s);
    if frames != [] {
      NextDivides(s, frames, rest);
    } else {
      assert s == rest;
    }
  }

  /**
   `parse_adts_aac`: an input is accepted exactly when a whole frame starts it, and delivered as the frames
   it is made of, up to where no frame follows.
   */
  method ParseAdtsAac(s: seq<byte>) returns (r: Result<AacPackets, ()>)
    ensures r.Ok? <==> HasFrame(s)
    ensures r.Ok? <==> StartsWithFrame(s)
    ensures r.Ok? ==> HoldsFrames(r.value, s)
    ensures forall frames, rest :: r.Ok? && Divides(s, frames, rest) ==> Delivers(r.value, frames)
  {
    r := ParseFrames(s);
    HasFrameInFront(s);
    MeasuredIsFrame(s);
    forall frames, rest | r.Ok? && Divides(s, frames, rest) ensures Delivers(r.value, frames) {
      DivisionDecides(s, frames, rest);
      FramesAreDelivered(r.value, s, frames, rest);
    }
  }

  /** The parser's loop (src/audio.rs:567-617). */
  method ParseFrames(s: seq<byte>) returns (r: Result<AacPackets, ()>)
    ensures r.Ok? <==> HasFrame(s)
    ensures r.Ok? ==> HoldsFrames(r.value, s)
  {
    var pos, sampleRate, channels := 0, 44100, 2;
    var bytes: seq<byte>, offsets: seq<nat> := [], [];
    var first := true;
    ghost var b := FrameBoundaries(s, 0);
    while pos + 7 <= |s|
      invariant |offsets| < |b| && offsets == b[..|offsets|] && pos == b[|offsets|]
      invariant pos <= |s| && bytes == s[..pos] && (offsets == [] <==> pos == 0)
      invariant if first then offsets == [] else |s| >= 7 && Described(s[..7], sampleRate, channels)
      decreases |s| - pos
    {
      var synchronised, frameLength := NextFrame(s, pos, |offsets|);
      if !synchronised {
        if offsets == [] {
          return Err(());
        }
        break;
      }
      if first {
        sampleRate, channels := ReadFormat(s[pos..pos + 7]);
        first := false;
      }
      if frameLength.None? {
        break;
      }
      offsets := offsets + [|bytes|];
      bytes := bytes + s[pos..pos + frameLength.value];
      pos := pos + frameLength.value;
    }
    if pos + 7 > |s| {
      FrameAtBoundary(s, 0, |offsets|);
    }
    if offsets == [] {
      return Err(());
    }
    offsets := offsets + [|bytes|];
    BoundariesAscend(s);
    r := Ok(AacPackets(sampleRate, channels, bytes, offsets));
  }

  /** The format of the first frame (src/audio.rs:583-591); the defaults are those set before the loop. */
  method ReadFormat(h: seq<byte>) returns (sampleRate: nat, channels: nat)
    requires |h| == 7
    ensures Described(h, sampleRate, channels)
  {
    sampleRate := 44100;
    var rateField := h[2] / 4 % 16;
    if rateField < |SAMPLE_RATES| {
      sampleRate := SAMPLE_RATES[rateField];
    }
    var channelField := h[2] % 2 * 4 + h[3] / 0x40;
    channels := if channelField == 0 then 2 else channelField;
  }

  /** The rates of the standard's table: three families, each halved from entry to entry, and 7350. */
  lemma RatesHalve()
    ensures |SAMPLE_RATES| == 13 && SAMPLE_RATES[0] == 96000 && SAMPLE_RATES[1] == 88200 && SAMPLE_RATES[2] == 64000
    ensures (forall i :: 0 <= i < 9 ==> SAMPLE_RATES[i] == 2 * SAMPLE_RATES[i + 3]) && SAMPLE_RATES[12] == 7350
  {
  }

  lemma OneFrameDivides(f: seq<byte>)
    requires IsAdtsFrame(f)
    ensures StartsWithFrame(f) && Divides(f, [f], [])
  {
    assert f[..|f|] == f && [f][1..] == [];
    assert Stream([f]) == f + Stream([f][1..]) == f;
  }

  /** A stream of one MPEG-2 frame, whose second byte differs from the one the writer uses. */
  method Mpeg2Stream() returns (r: Result<AacPackets, ()>)
    ensures r.Ok? && r.value.sampleRate == 44100 && r.value.channels == 2 && r.value.PacketCount() == 1
  {
    var s: seq<byte> := [0xFF, 0xF9, 0x50, 0x80, 0x01, 0x1F, 0xFC, 0x21];
    assert IsAdtsFrame(s);
    OneFrameDivides(s);
    r := ParseAdtsAac(s);
  }

  // ---------- The frame writer ----------

  function Frame(rateIndex: nat, channels: nat, payload: seq<byte>): seq<byte>
    requires rateIndex < 13 && channels < 8
  {
    Header(rateIndex, channels, |payload|) + payload
  }

  /** The first `k` payloads, framed. */
  function Framed(rateIndex: nat, channels: nat, payloads: seq<seq<byte>>, k: nat): seq<byte>
    requires rateIndex < 13 && channels < 8 && k <= |payloads|
  {
    if k == 0 then [] else Framed(rateIndex, channels, payloads, k - 1) + Frame(rateIndex, channels, payloads[k - 1])
  }

  /** Where each framed payload starts, and where the last ends. */
  function Starts(payloads: seq<seq<byte>>, k: nat): nat
    requires k <= |payloads|
  {
    if k == 0 then 0 else Starts(payloads, k - 1) + 7 + |payloads[k - 1]|
  }

  predicate FitFrames(payloads: seq<seq<byte>>) {
    forall i :: 0 <= i < |payloads| ==> |payloads[i]| + 7 <= MAX_FRAME_LENGTH
  }

  function FirstStarts(payloads: seq<seq<byte>>, n: nat): seq<nat>
    requires n <= |payloads| + 1
  {
    seq(n, k requires 0 <= k < n => Starts(payloads, k))
  }

  function AllStarts(payloads: seq<seq<byte>>): seq<nat> {
    FirstStarts(payloads, |payloads| + 1)
  }

  lemma NextStart(rateIndex: nat, channels: nat, payloads: seq<seq<byte>>, k: nat)
    requires rateIndex < 13 && channels < 8 && k <= |payloads|
    ensures FirstStarts(payloads, k + 1)
            == FirstStarts(payloads, k) + [|Framed(rateIndex, channels, payloads, k)|]
  {
    FramedSize(rateIndex, channels, payloads, k);
  }

  /** The payloads, each framed for entry `rateIndex` of the rate table. */
  predicate IsFraming(p: AacPackets, rateIndex: nat, payloads: seq<seq<byte>>) {
    && rateIndex < 13 && p.sampleRate == SAMPLE_RATES[rateIndex] && 1 <= p.channels <= 7
    && FitFrames(payloads)
    && p.bytes == Framed(rateIndex, p.channels, payloads, |payloads|) && p.offsets == AllStarts(payloads)
  }

  /**
   The packet loop of `try_parse_caf_aac` over the packets of a CAF file: it gives up exactly on an unknown
   rate, on a channel count that has no code, or on a packet too long for a frame.
   */
  method FrameCafPackets(sampleRate: nat, channels: nat, payloads: seq<seq<byte>>) returns (r: Option<AacPackets>)
    ensures r.Some? <==> sampleRate in SAMPLE_RATES && 1 <= channels <= 7
                         && forall k :: 0 <= k < |payloads| ==> |payloads[k]| + 7 < 0x2000
    ensures r.Some? ==> r.value.sampleRate == sampleRate && r.value.channels == channels
    ensures r.Some? ==> exists rateIndex: nat :: IsFraming(r.value, rateIndex, payloads)
  {
    var rateIndex := PositionOf(SAMPLE_RATES, sampleRate);
    if rateIndex == |SAMPLE_RATES| || !(1 <= channels <= 7) {
      return None;
    }
    var ok, bytes, offsets := FramePackets(rateIndex, channels, payloads);
    if !ok {
      return None;
    }
    r := Some(AacPackets(sampleRate, channels, bytes, offsets));
    assert IsFraming(r.value, rateIndex, payloads);
  }

  method FramePackets(rateIndex: nat, channels: nat, payloads: seq<seq<byte>>)
    returns (ok: bool, bytes: seq<byte>, offsets: seq<nat>)
    requires rateIndex < 13 && channels < 8
    ensures ok <==> FitFrames(payloads)
    ensures ok ==> bytes == Framed(rateIndex, channels, payloads, |payloads|) && offsets == AllStarts(payloads)
  {
    bytes, offsets := [], [];
    for k := 0 to |payloads|
      invariant bytes == Framed(rateIndex, channels, payloads, k)
      invariant offsets == FirstStarts(payloads, k)
      invariant forall i :: 0 <= i < k ==> |payloads[i]| + 7 <= MAX_FRAME_LENGTH
    {
      if |payloads[k]| + 7 > MAX_FRAME_LENGTH {
        return false, bytes, offsets;
      }
      NextStart(rateIndex, channels, payloads, k);
      offsets := offsets + [|bytes|];
      bytes := AppendFrame(bytes, rateIndex, channels, payloads[k]);
    }
    NextStart(rateIndex, channels, payloads, |payloads|);
    offsets := offsets + [|bytes|];
    ok := true;
  }

  method AppendFrame(bytes: seq<byte>, rateIndex: nat, channels: nat, payload: seq<byte>) returns (longer: seq<byte>)
    requires rateIndex < 13 && channels < 8
    ensures longer == bytes + Frame(rateIndex, channels, payload)
  {
    longer := bytes + Header(rateIndex, channels, |payload|);
    longer := longer + payload;
  }

  /** Where `x` first occurs, or the length if it does not. */
  method PositionOf(s: seq<nat>, x: nat) returns (i: nat)
    ensures i <= |s| && x !in s[..i] && (i < |s| ==> s[i] == x)
    ensures i == |s| ==> x !in s
  {
    i := 0;
    while i < |s| && s[i] != x
      invariant i <= |s| && x !in s[..i]
    {
      i := i + 1;
    }
    assert s[..|s|] == s;
  }

  // ---------- Round trip ----------

  lemma {:induction false} StartsGrow(payloads: seq<seq<byte>>, k: nat, n: nat)
    requires k <= n <= |payloads|
    ensures Starts(payloads, k) <= Starts(payloads, n)
    decreases n
  {
    if k < n {
      StartsGrow(payloads, k, n - 1);
    }
  }

  lemma {:induction false} FramedSize(rateIndex: nat, channels: nat, payloads: seq<seq<byte>>, k: nat)
    requires rateIndex < 13 && channels < 8 && k <= |payloads|
    ensures |Framed(rateIndex, channels, payloads, k)| == Starts(payloads, k)
  {
    if k > 0 {
      FramedSize(rateIndex, channels, payloads, k - 1);
    }
  }

  /** Frame `k` lies between its start and the next. */
  lemma {:induction false} FramedAt(rateIndex: nat, channels: nat, payloads: seq<seq<byte>>, k: nat, n: nat)
    requires rateIndex < 13 && channels < 8 && k < n <= |payloads|
    ensures var s := Framed(rateIndex, channels, payloads, n);
            && Starts(payloads, k + 1) <= |s| && s[Starts(payloads, k)..Starts(payloads, k + 1)] ==
                Frame(rateIndex, channels, payloads[k])
    decreases n
  {
    FramedSize(rateIndex, channels, payloads, n - 1);
    if k < n - 1 {
      FramedAt(rateIndex, channels, payloads, k, n - 1);
    }
  }

  /** A frame in front of anything is recognised, with its own length. */
  lemma FrameRecognised(rateIndex: nat, channels: nat, payload: seq<byte>, s: seq<byte>)
    requires rateIndex < 13 && channels < 8 && |payload| + 7 <= MAX_FRAME_LENGTH
    requires Frame(rateIndex, channels, payload) <= s
    ensures FrameLength(s) == |payload| + 7 && s[..7] == Header(rateIndex, channels, |payload|)
  {
    assert s[..7] == Header(rateIndex, channels, |payload|);
    HeaderFields(rateIndex, channels, |payload|);
  }

  /** Positions that each start a frame which ends at the next one are the boundaries. */
  lemma {:induction false} FramesDetermineBoundaries(s: seq<byte>, starts: seq<nat>, k: nat)
    requires k < |starts| && (forall i :: 0 <= i < |starts| - 1 ==> IsFrame(s, starts[i], starts[i + 1]))
    requires starts[|starts| - 1] == |s|
    ensures starts[k] <= |s| && FrameBoundaries(s, starts[k]) == starts[k..]
    decreases |starts| - k
  {
    if k + 1 < |starts| {
      assert IsFrame(s, starts[k], starts[k + 1]);
      FramesDetermineBoundaries(s, starts, k + 1);
      BoundaryStep(s, starts[k], starts[k + 1]);
      assert starts[k..] == [starts[k]] + starts[k + 1..];
    } else {
      assert s[|s|..] == [];
    }
  }

  lemma BoundaryStep(s: seq<byte>, from: nat, to: nat)
    requires IsFrame(s, from, to)
    ensures FrameBoundaries(s, from) == [from] + FrameBoundaries(s, to)
  {
  }

  lemma FramedIsFrame(rateIndex: nat, channels: nat, payloads: seq<seq<byte>>, k: nat)
    requires rateIndex < 13 && channels < 8 && k < |payloads| && FitFrames(payloads)
    ensures IsFrame(Framed(rateIndex, channels, payloads, |payloads|), Starts(payloads, k), Starts(payloads, k + 1))
  {
    var s := Framed(rateIndex, channels, payloads, |payloads|);
    FramedAt(rateIndex, channels, payloads, k, |payloads|);
    var from, to := Starts(payloads, k), Starts(payloads, k + 1);
    assert s[from..][..to - from] == s[from..to];
    FrameRecognised(rateIndex, channels, payloads[k], s[from..]);
  }

  lemma FramedBoundaries(rateIndex: nat, channels: nat, payloads: seq<seq<byte>>)
    requires rateIndex < 13 && channels < 8 && FitFrames(payloads)
    ensures FrameBoundaries(Framed(rateIndex, channels, payloads, |payloads|), 0) == AllStarts(payloads)
  {
    var s, starts := Framed(rateIndex, channels, payloads, |payloads|), AllStarts(payloads);
    FramedSize(rateIndex, channels, payloads, |payloads|);
    forall k | 0 <= k < |starts| - 1 ensures IsFrame(s, starts[k], starts[k + 1]) {
      FramedIsFrame(rateIndex, channels, payloads, k);
    }
    FramesDetermineBoundaries(s, starts, 0);
  }

  /** The first header says how to play the framing, and every packet is a header and its payload. */
  lemma FramingIsValid(p: AacPackets, rateIndex: nat, payloads: seq<seq<byte>>)
    requires IsFraming(p, rateIndex, payloads)
    ensures p.Valid() && p.offsets == FrameBoundaries(p.bytes, 0)
    ensures forall i :: 0 <= i < |payloads| ==> p.Packet(i)[7..] == payloads[i]
  {
    FramedSize(rateIndex, p.channels, payloads, |payloads|);
    FramedBoundaries(rateIndex, p.channels, payloads);
    BoundariesAscend(p.bytes);
    forall i | 0 <= i < |payloads| ensures p.Packet(i)[7..] == payloads[i] {
      PacketIsFrame(p, rateIndex, payloads, i);
    }
  }

  lemma PacketIsFrame(p: AacPackets, rateIndex: nat, payloads: seq<seq<byte>>, i: nat)
    requires IsFraming(p, rateIndex, payloads) && p.Valid() && i < |payloads|
    ensures p.Packet(i)[7..] == payloads[i]
  {
    FramedAt(rateIndex, p.channels, payloads, i, |payloads|);
    BehindHeader(rateIndex, p.channels, payloads[i]);
    assert p.offsets[i] == Starts(payloads, i) && p.offsets[i + 1] == Starts(payloads, i + 1);
  }

  lemma BehindHeader(rateIndex: nat, channels: nat, payload: seq<byte>)
    requires rateIndex < 13 && channels < 8
    ensures Frame(rateIndex, channels, payload)[7..] == payload
  {
  }

  lemma FramingDescribesItself(p: AacPackets, rateIndex: nat, payloads: seq<seq<byte>>)
    requires IsFraming(p, rateIndex, payloads) && payloads != []
    ensures FrameLength(p.bytes) > 0
    ensures forall rate, channels :: Described(p.bytes[..7], rate, channels) <==>
            rate == p.sampleRate && channels == p.channels
  {
    FramedAt(rateIndex, p.channels, payloads, 0, |payloads|);
    FrameRecognised(rateIndex, p.channels, payloads[0], p.bytes);
    HeaderFields(rateIndex, p.channels, |payloads[0]|);
  }

  lemma ParseIsUnique(p: AacPackets, parsed: AacPackets)
    requires p.Valid() && p.offsets == FrameBoundaries(p.bytes, 0) && |p.bytes| >= 7
    requires forall rate, channels :: Described(p.bytes[..7], rate, channels) <==>
            rate == p.sampleRate && channels == p.channels
    ensures HoldsFrames(parsed, p.bytes) <==> parsed == p
  {
    assert Described(p.bytes[..7], p.sampleRate, p.channels);
    if HoldsFrames(parsed, p.bytes) {
      assert |parsed.bytes| == |p.bytes| && parsed.bytes == p.bytes;
    }
  }

  /**
   Parsing undoes framing: what the parser makes of the framed bytes is the framing itself, with the
   same bytes, offsets, rate and channels, and behind each frame's header lies its payload.
   */
  lemma FramingIsParsedBack(p: AacPackets, rateIndex: nat, payloads: seq<seq<byte>>, parsed: AacPackets)
    requires IsFraming(p, rateIndex, payloads) && payloads != []
    ensures HasFrame(p.bytes)
    ensures HoldsFrames(parsed, p.bytes) <==> parsed == p
    ensures p.Valid() && forall i :: 0 <= i < |payloads| ==> p.Packet(i)[7..] == payloads[i]
  {
    FramingIsValid(p, rateIndex, payloads);
    FramingDescribesItself(p, rateIndex, payloads);
    ParseIsUnique(p, parsed);
    HasFrameInFront(p.bytes);
  }
}
