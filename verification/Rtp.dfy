/** Audio RTP framing: the header codec, the payload classes, and the send-side
    sequencer that stamps sequence number, timestamp and speech-start marker. */
module Rtp {
  import opened Bytes

  // ----- payload classes -----

  const PRIMING_FRAME_1: seq<byte> := [
    0x12, 0x36, 0x26, 0x2b, 0x4a, 0xc8, 0x2b, 0x09, 0xc9, 0x1f, 0x34, 0xc2, 0xd6, 0x7a, 0x01, 0x73,
    0x1b, 0x2e]
  const PRIMING_FRAME_2: seq<byte> := [0x90, 0xb8, 0x14, 0x14, 0xc4]

  predicate IsOpusDtx(payload: seq<byte>) {
    if |payload| == 0 then false
    else if |payload| <= 2 then true
    else if |payload| <= 15 then
      payload[0] / 8 == 1 || payload[0] == 0x0a || (payload[0] / 16 == 3 && |payload| <= 6)
    else false
  }

  predicate IsMlowDtx(payload: seq<byte>) { |payload| > 0 && payload[0] / 0x40 == 2 }

  predicate IsDtx(mlow: bool, payload: seq<byte>) {
    if mlow then IsMlowDtx(payload) else IsOpusDtx(payload)
  }

  predicate IsPriming(payload: seq<byte>) { payload == PRIMING_FRAME_1 || payload == PRIMING_FRAME_2 }

  predicate IsSpeech(mlow: bool, payload: seq<byte>) { !IsDtx(mlow, payload) && !IsPriming(payload) }

  // ----- what the classes are, by length and first byte -----

  /** MLow comfort noise starts with the bits 10. Opus comfort noise is one or two
      bytes, or a short frame of one of two configurations. */
  predicate ComfortNoise(mlow: bool, p: seq<byte>) {
    if mlow then |p| > 0 && 0x80 <= p[0] <= 0xbf
    else
      || 1 <= |p| <= 2
      || (3 <= |p| <= 15 && 0x08 <= p[0] <= 0x0f)
      || (3 <= |p| <= 6 && 0x30 <= p[0] <= 0x3f)
  }

  lemma NoiseIff(mlow: bool, p: seq<byte>)
    ensures IsDtx(mlow, p) <==> ComfortNoise(mlow, p)
  {}

  predicate Voice(mlow: bool, p: seq<byte>) {
    !ComfortNoise(mlow, p) && p != PRIMING_FRAME_1 && p != PRIMING_FRAME_2
  }

  // ----- header codec -----

  const VERSION := 2
  const EXTENSION_PROFILE: u16 := 0xdebe
  const DTX_WORD: u32 := 0x3001_0000

  datatype RtpHeader = RtpHeader(
    marker: bool, payloadType: byte, sequenceNumber: u16, timestamp: u32, ssrc: u32, extensionWord: Option<u32>)

  function ByteSize(h: RtpHeader): (n: nat) { if h.extensionWord.Some? then 20 else 16 }

  function EncodeHeader(h: RtpHeader): (s: seq<byte>)
    ensures |s| == ByteSize(h)
  {
    [VERSION * 0x40 + 0x10, (if h.marker then 0x80 else 0) + h.payloadType % 0x80]
    + Be16(h.sequenceNumber) + Be32(h.timestamp) + Be32(h.ssrc) + Be16(EXTENSION_PROFILE)
    + (match h.extensionWord case None => [0, 0] case Some(w) => [0, 1] + Be32(w))
  }

  /** Full header length: 12 fixed bytes, CSRC list and optional extension. */
  function HeaderLength(data: seq<byte>): (r: Option<nat>)
    ensures r.Some? ==> 12 <= r.value <= |data|
  {
    if |data| < 12 || data[0] / 0x40 != VERSION then None
    else
      var len := 12 + data[0] % 0x10 * 4;
      if |data| < len then None
      else if data[0] / 0x10 % 2 == 1 then
        if |data| < len + 4 then None
        else
          var full := len + 4 + U16(data[len + 2], data[len + 3]) * 4;
          if |data| < full then None else Some(full)
      else Some(len)
  }

  function ParseHeader(data: seq<byte>): (r: Option<RtpHeader>) {
    if HeaderLength(data).None? then None
    else
      Some(RtpHeader(
             data[1] / 0x80 == 1, data[1] % 0x80, U16(data[2], data[3]),
             U32(data[4], data[5], data[6], data[7]), U32(data[8], data[9], data[10], data[11]), None))
  }

  /** What a receiver can see of a header: seven bits of payload type and no
      extension word. */
  function Visible(h: RtpHeader): (r: RtpHeader) {
    h.(payloadType := h.payloadType % 0x80, extensionWord := None)
  }

  /** Section 5.1 of RFC 3550 with the one-word 0xdebe extension: where each field
      of an encoded header stands, big-endian. */
  lemma HeaderLayout(h: RtpHeader, rest: seq<byte>)
    ensures var d := EncodeHeader(h) + rest;
            && d[0] == 0x90 && d[1] == (if h.marker then 0x80 else 0) + h.payloadType % 0x80
            && d[2..4] == Be16(h.sequenceNumber) && d[4..8] == Be32(h.timestamp) && d[8..12] == Be32(h.ssrc)
            && d[12..14] == [0xde, 0xbe] && d[14] == 0 && d[15] == (if h.extensionWord.Some? then 1 else 0)
            && (h.extensionWord.Some? ==> d[16..20] == Be32(h.extensionWord.value))
  {
    var d := EncodeHeader(h);
    assert d[12..14] == Be16(EXTENSION_PROFILE);
    assert h.extensionWord.Some? ==> d[16..20] == Be32(h.extensionWord.value);
    assert d[2..4] == Be16(h.sequenceNumber);
    assert d[4..8] == Be32(h.timestamp);
    assert d[8..12] == Be32(h.ssrc);
    var e := d + rest;
    assert e[2..4] == d[2..4] && e[4..8] == d[4..8] && e[8..12] == d[8..12] && e[12..14] == d[12..14];
    assert h.extensionWord.Some? ==> e[16..20] == d[16..20];
  }

  lemma MeasureHeader(d: seq<byte>, ext: bool)
    requires |d| >= (if ext then 20 else 16)
    requires d[0] == 0x90 && d[14] == 0 && d[15] == if ext then 1 else 0
    ensures HeaderLength(d) == Some(if ext then 20 else 16)
  {}

  lemma ParseFields(d: seq<byte>)
    requires HeaderLength(d).Some?
    ensures ParseHeader(d)
         == Some(RtpHeader(d[1] / 0x80 == 1, d[1] % 0x80, U16(d[2], d[3]),
                           U32(d[4], d[5], d[6], d[7]), U32(d[8], d[9], d[10], d[11]), None))
  {}

  lemma FlagByte(h: RtpHeader)
    ensures var b := (if h.marker then 0x80 else 0) + h.payloadType % 0x80;
            Visible(h) == h.(marker := b / 0x80 == 1, payloadType := b % 0x80, extensionWord := None)
    ensures ByteSize(h) == if h.extensionWord.Some? then 20 else 16
  {}

  /** Whatever follows it, an encoded header is measured and parsed back. */
  lemma HeaderRoundTrip(h: RtpHeader, rest: seq<byte>)
    ensures HeaderLength(EncodeHeader(h) + rest) == Some(ByteSize(h))
    ensures ParseHeader(EncodeHeader(h) + rest) == Some(Visible(h))
  {
    hide *;
    var d := EncodeHeader(h) + rest;
    FlagByte(h);
    HeaderLayout(h, rest);
    MeasureHeader(d, h.extensionWord.Some?);
    ParseFields(d);
    ReadBack16(d, 2, h.sequenceNumber);
    ReadBack32(d, 4, h.timestamp);
    ReadBack32(d, 8, h.ssrc);
  }

  // ----- any peer's header -----

  /** A header by section 5.1 of RFC 3550, CSRC list and extension included. */
  datatype PeerHeader = PeerHeader(
    padding: bool, marker: bool, payloadType: byte, sequenceNumber: u16, timestamp: u32, ssrc: u32,
    csrc: seq<u32>, extension: Option<Extension>)

  datatype Extension = Extension(profile: u16, words: seq<u32>)

  ghost predicate Valid(h: PeerHeader) {
    && h.payloadType < 0x80 && |h.csrc| < 0x10
    && (h.extension.Some? ==> |h.extension.value.words| < 0x1_0000)
  }

  function Words(ws: seq<u32>): (s: seq<byte>)
    ensures |s| == 4 * |ws|
  {
    if |ws| == 0 then [] else Be32(ws[0]) + Words(ws[1..])
  }

  function FixedBytes(h: PeerHeader): (s: seq<byte>)
    requires Valid(h)
    ensures |s| == 12
  {
    [0x80 + (if h.padding then 0x20 else 0) + (if h.extension.Some? then 0x10 else 0) + |h.csrc|,
     (if h.marker then 0x80 else 0) + h.payloadType]
    + Be16(h.sequenceNumber) + Be32(h.timestamp) + Be32(h.ssrc)
  }

  function PeerBytes(h: PeerHeader): (s: seq<byte>)
    requires Valid(h)
    ensures |s| == 12 + 4 * |h.csrc| + (if h.extension.Some? then 4 + 4 * |h.extension.value.words| else 0)
  {
    FixedBytes(h) + Words(h.csrc)
    + (match h.extension case None => [] case Some(e) => Be16(e.profile) + Be16(|e.words|) + Words(e.words))
  }

  function Seen(h: PeerHeader): (r: RtpHeader) {
    RtpHeader(h.marker, h.payloadType, h.sequenceNumber, h.timestamp, h.ssrc, None)
  }

  /** The first byte of such a header, taken apart. */
  lemma FirstByte(h: PeerHeader)
    requires Valid(h)
    ensures var b := FixedBytes(h)[0];
            && 0x80 <= b <= 0xbf && b / 0x40 == 2 && b % 0x10 == |h.csrc|
            && (b / 0x10 % 2 == 1 <==> h.extension.Some?)
  {}

  lemma WordCount(pre: seq<byte>, e: Extension, rest: seq<byte>)
    requires |e.words| < 0x1_0000
    ensures var d := pre + (Be16(e.profile) + Be16(|e.words|) + Words(e.words)) + rest;
            U16(d[|pre| + 2], d[|pre| + 3]) == |e.words|
  {
    hide Be16, U16;
    var d := pre + (Be16(e.profile) + Be16(|e.words|) + Words(e.words)) + rest;
    assert d[|pre| + 2..|pre| + 4] == Be16(|e.words|);
    ReadBack16(d, |pre| + 2, |e.words|);
  }

  lemma PeerLength(h: PeerHeader, d: seq<byte>)
    requires Valid(h) && |d| > 0 && d[0] == FixedBytes(h)[0]
    requires var n := 12 + 4 * |h.csrc|;
             h.extension.Some? && |d| >= n + 4 ==> U16(d[n + 2], d[n + 3]) == |h.extension.value.words|
    ensures HeaderLength(d) == if |d| >= |PeerBytes(h)| then Some(|PeerBytes(h)|) else None
  {
    hide FixedBytes, U16;
    FirstByte(h);
  }

  /** Whatever follows it, any peer's header is measured and parsed; cut short
      anywhere it is refused. */
  lemma PeerHeaderRoundTrip(h: PeerHeader, rest: seq<byte>)
    requires Valid(h)
    ensures HeaderLength(PeerBytes(h) + rest) == Some(|PeerBytes(h)|)
    ensures ParseHeader(PeerBytes(h) + rest) == Some(Seen(h))
    ensures forall n :: 0 <= n < |PeerBytes(h)| ==> HeaderLength(PeerBytes(h)[..n]) == None
  {
    hide HeaderLength, ParseHeader, U16, U32, Be16, Be32, FixedBytes;
    var d := PeerBytes(h) + rest;
    var n := 12 + 4 * |h.csrc|;
    var fixed, words := FixedBytes(h), Words(h.csrc);
    if h.extension.Some? {
      WordCount(fixed + words, h.extension.value, rest);
      var e := h.extension.value;
      assert d == (fixed + words) + (Be16(e.profile) + Be16(|e.words|) + Words(e.words)) + rest;
    }
    assert d[0] == fixed[0];
    PeerLength(h, d);
    forall m | 0 <= m < |PeerBytes(h)|
      ensures HeaderLength(PeerBytes(h)[..m]) == None
    {
      if m > 0 {
        assert PeerBytes(h)[..m][0] == fixed[0];
        assert m >= n + 4 ==> PeerBytes(h)[..m][n + 2] == d[n + 2] && PeerBytes(h)[..m][n + 3] == d[n + 3];
        PeerLength(h, PeerBytes(h)[..m]);
      } else {
        TooShort(PeerBytes(h)[..0]);
      }
    }
    assert d[..12] == fixed;
    FixedFields(h, d);
    ParseFields(d);
  }

  lemma TooShort(d: seq<byte>)
    ensures |d| < 12 ==> HeaderLength(d) == None
  {}

  lemma FixedFields(h: PeerHeader, d: seq<byte>)
    requires Valid(h) && |d| >= 12 && d[..12] == FixedBytes(h)
    ensures d[1] == (if h.marker then 0x80 else 0) + h.payloadType
    ensures U16(d[2], d[3]) == h.sequenceNumber
    ensures U32(d[4], d[5], d[6], d[7]) == h.timestamp && U32(d[8], d[9], d[10], d[11]) == h.ssrc
  {
    hide U16, U32, Be16, Be32;
    var f := FixedBytes(h);
    assert d[1] == d[..12][1];
    assert d[2..4] == d[..12][2..4] == f[2..4] == Be16(h.sequenceNumber);
    assert d[4..8] == d[..12][4..8] == f[4..8] == Be32(h.timestamp);
    assert d[8..12] == d[..12][8..12] == f[8..12] == Be32(h.ssrc);
    ReadBack16(d, 2, h.sequenceNumber);
    ReadBack32(d, 4, h.timestamp);
    ReadBack32(d, 8, h.ssrc);
  }

  /** Nothing that is not of version 2 is taken for RTP. */
  lemma OtherVersionsRefused(d: seq<byte>)
    requires |d| > 0 && !(0x80 <= d[0] <= 0xbf)
    ensures HeaderLength(d) == None && ParseHeader(d) == None
  {}

  // ----- relay demultiplexing -----

  datatype RelayPacket = Stun | Rtcp | Media | Other

  function Classify(data: seq<byte>): (r: RelayPacket) {
    if |data| == 0 then Other
    else if data[0] / 0x40 == 0 then Stun
    else if 0x80 <= data[0] <= 0xbf then
      if |data| > 1 && 0xc8 <= data[1] <= 0xcf then Rtcp else Media
    else Other
  }

  /** The classes by the first two bytes. */
  lemma DemuxIff(data: seq<byte>)
    ensures Classify(data) == Stun <==> |data| > 0 && data[0] < 0x40
    ensures Classify(data) == Rtcp <==> |data| > 1 && 0x80 <= data[0] < 0xc0 && 200 <= data[1] <= 207
    ensures Classify(data) == Media <==>
              |data| > 0 && 0x80 <= data[0] < 0xc0 && !(|data| > 1 && 200 <= data[1] <= 207)
  {}

  /** A sent packet is taken for RTCP exactly when it is marked and its payload
      type is 72 to 79; otherwise it reaches the media path. */
  lemma SentPacketsAreMedia(h: RtpHeader, rest: seq<byte>)
    ensures Classify(EncodeHeader(h) + rest)
         == if h.marker && 72 <= h.payloadType % 0x80 <= 79 then Rtcp else Media
  {
    var d := EncodeHeader(h) + rest;
    assert d[0] == 0x90 && d[1] == (if h.marker then 0x80 else 0) + h.payloadType % 0x80;
  }

  /** The same for any peer's packet, by section 4 of RFC 5761. */
  lemma PeerPacketsAreMedia(h: PeerHeader, rest: seq<byte>)
    requires Valid(h)
    ensures Classify(PeerBytes(h) + rest) == if h.marker && 72 <= h.payloadType <= 79 then Rtcp else Media
  {
    hide FixedBytes;
    var d := PeerBytes(h) + rest;
    FirstByte(h);
    assert d[0] == FixedBytes(h)[0] && d[1] == FixedBytes(h)[1];
    SecondByte(h);
  }

  lemma SecondByte(h: PeerHeader)
    requires Valid(h)
    ensures FixedBytes(h)[1] == (if h.marker then 0x80 else 0) + h.payloadType
  {}

  // ----- sequencer -----

  datatype Frame = Frame(payload: seq<byte>, marker: bool)

  datatype Stream = Stream(
    ssrc: u32, sn: u16, timestamp: u32, lastSent: Option<u32>, samples: u32,
    speechStarted: bool, markers: bool, mlow: bool, payloadType: byte)

  function NewStream(ssrc: u32, samples: u32): (s: Stream) {
    Stream(ssrc, 1, 0, None, samples, false, true, true, 120)
  }

  /** The stream set up for a call: payload type 120 and one codec profile. */
  function Configured(ssrc: u32, samples: u32, mlow: bool): (s: Stream) {
    NewStream(ssrc, samples).(mlow := mlow, markers := mlow, payloadType := 120)
  }

  function HeaderFor(s: Stream, f: Frame): (h: RtpHeader) {
    RtpHeader(
      f.marker || (s.markers && IsSpeech(s.mlow, f.payload) && !s.speechStarted),
      s.payloadType, s.sn, s.timestamp, s.ssrc, if IsDtx(s.mlow, f.payload) then Some(DTX_WORD) else None)
  }

  function NextStream(s: Stream, f: Frame): (r: Stream) {
    s.(speechStarted := if IsDtx(s.mlow, f.payload) then false else s.speechStarted || IsSpeech(s.mlow, f.payload),
       lastSent := Some(s.timestamp),
       sn := (s.sn + 1) % 0x1_0000,
       timestamp := (s.timestamp + s.samples) % 0x1_0000_0000)
  }

  function StreamAfter(s: Stream, frames: seq<Frame>): (r: Stream) {
    if |frames| == 0 then s
    else NextStream(StreamAfter(s, frames[..|frames| - 1]), frames[|frames| - 1])
  }

  /** Speech has been heard and no comfort-noise frame came after it. */
  ghost predicate InSpeech(mlow: bool, frames: seq<Frame>) {
    exists j :: 0 <= j < |frames| && Voice(mlow, frames[j].payload)
             && forall m :: j < m < |frames| ==> !ComfortNoise(mlow, frames[m].payload)
  }

  lemma InSpeechStep(mlow: bool, frames: seq<Frame>, f: Frame)
    ensures InSpeech(mlow, frames + [f])
       <==> !ComfortNoise(mlow, f.payload) && (Voice(mlow, f.payload) || InSpeech(mlow, frames))
  {
    hide ComfortNoise, Voice;
    var n, g := |frames|, frames + [f];
    assert g[n] == f;
    if InSpeech(mlow, g) {
      var j :| 0 <= j < |g| && Voice(mlow, g[j].payload)
            && forall m :: j < m < |g| ==> !ComfortNoise(mlow, g[m].payload);
      if j < n {
        assert Voice(mlow, frames[j].payload);
        assert forall m :: j < m < n ==> frames[m] == g[m];
      } else {
        VoiceIsNoNoise(mlow, f.payload);
      }
    }
    if !ComfortNoise(mlow, f.payload) {
      if Voice(mlow, f.payload) {
        assert Voice(mlow, g[n].payload);
      } else if InSpeech(mlow, frames) {
        var j :| 0 <= j < n && Voice(mlow, frames[j].payload)
              && forall m :: j < m < n ==> !ComfortNoise(mlow, frames[m].payload);
        assert Voice(mlow, g[j].payload);
        assert forall m :: j < m < n ==> g[m] == frames[m];
      }
    }
  }

  lemma VoiceIsNoNoise(mlow: bool, p: seq<byte>)
    ensures Voice(mlow, p) ==> !ComfortNoise(mlow, p)
    ensures IsSpeech(mlow, p) <==> Voice(mlow, p)
  {
    NoiseIff(mlow, p);
  }

  /** `n` packets into the stream, modulo 2^32. */
  function TimestampOf(n: nat, samples: u32): (t: u32) { n * samples % 0x1_0000_0000 }

  lemma TimestampStep(n: nat, samples: u32)
    ensures (TimestampOf(n, samples) + samples) % 0x1_0000_0000 == TimestampOf(n + 1, samples)
  {
    var a := n * samples;
    assert (n + 1) * samples == a + samples;
    ModAdd(a, samples);
  }

  lemma TimestampStart(samples: u32)
    ensures TimestampOf(0, samples) == 0
  {}

  lemma ModAdd(a: nat, b: nat)
    ensures (a % 0x1_0000_0000 + b) % 0x1_0000_0000 == (a + b) % 0x1_0000_0000
  {}

  /** The sequencer's counters after any frames depend on their number only. */
  lemma {:induction false} StreamCounters(ssrc: u32, samples: u32, mlow: bool, frames: seq<Frame>)
    ensures var s := StreamAfter(Configured(ssrc, samples, mlow), frames);
            && s.sn == (|frames| + 1) % 0x1_0000
            && s.timestamp == TimestampOf(|frames|, samples)
            && s.ssrc == ssrc && s.samples == samples && s.mlow == mlow && s.markers == mlow && s.payloadType == 120
  {
    hide IsDtx, IsSpeech, TimestampOf;
    if |frames| == 0 {
      assert TimestampOf(0, samples) == 0 by { TimestampStart(samples); }
    } else {
      var n := |frames| - 1;
      StreamCounters(ssrc, samples, mlow, frames[..n]);
      TimestampStep(n, samples);
    }
  }

  /** The timestamp last sent is that of the last packet. */
  lemma LastSent(ssrc: u32, samples: u32, mlow: bool, frames: seq<Frame>)
    ensures StreamAfter(Configured(ssrc, samples, mlow), frames).lastSent
         == if |frames| == 0 then None else Some(TimestampOf(|frames| - 1, samples))
  {
    hide IsDtx, IsSpeech, TimestampOf;
    if |frames| > 0 { StreamCounters(ssrc, samples, mlow, frames[..|frames| - 1]); }
  }

  /** The speech latch holds exactly while the frames sent so far are in speech. */
  lemma {:induction false} StreamLatch(ssrc: u32, samples: u32, mlow: bool, frames: seq<Frame>)
    ensures StreamAfter(Configured(ssrc, samples, mlow), frames).speechStarted == InSpeech(mlow, frames)
  {
    hide IsDtx, IsSpeech, InSpeech, ComfortNoise, Voice;
    if |frames| == 0 {
      assert !InSpeech(mlow, []) by { NotInSpeechYet(mlow); }
    } else {
      var n := |frames| - 1;
      StreamLatch(ssrc, samples, mlow, frames[..n]);
      StreamCounters(ssrc, samples, mlow, frames[..n]);
      InSpeechStep(mlow, frames[..n], frames[n]);
      NoiseIff(mlow, frames[n].payload);
      VoiceIsNoNoise(mlow, frames[n].payload);
      assert frames == frames[..n] + [frames[n]];
    }
  }

  lemma NotInSpeechYet(mlow: bool)
    ensures !InSpeech(mlow, [])
  {}

  /** Packet `k` of a call: consecutive sequence numbers from 1, timestamps in
      steps of `samples`, the extension word 0x30010000 exactly on comfort noise, and
      a marker exactly where asked for or where, with MLow markers on, speech starts
      or resumes after comfort noise. */
  lemma PacketHeader(ssrc: u32, samples: u32, mlow: bool, frames: seq<Frame>, k: nat)
    requires k < |frames|
    ensures var h := HeaderFor(StreamAfter(Configured(ssrc, samples, mlow), frames[..k]), frames[k]);
            && h.sequenceNumber == (k + 1) % 0x1_0000
            && h.timestamp == k * samples % 0x1_0000_0000
            && h.ssrc == ssrc && h.payloadType == 120
            && (h.marker <==> frames[k].marker
                              || (mlow && Voice(mlow, frames[k].payload) && !InSpeech(mlow, frames[..k])))
            && h.extensionWord == (if ComfortNoise(mlow, frames[k].payload) then Some(0x3001_0000) else None)
  {
    hide InSpeech;
    StreamCounters(ssrc, samples, mlow, frames[..k]);
    StreamLatch(ssrc, samples, mlow, frames[..k]);
    NoiseIff(mlow, frames[k].payload);
    VoiceIsNoNoise(mlow, frames[k].payload);
  }

  /** The comfort-noise classes, read off the header of packet `k`: by length and
      first byte alone. */
  lemma ExtensionWordIff(ssrc: u32, samples: u32, mlow: bool, frames: seq<Frame>, k: nat)
    requires k < |frames|
    ensures var h := HeaderFor(StreamAfter(Configured(ssrc, samples, mlow), frames[..k]), frames[k]);
            var p := frames[k].payload;
            && (h.extensionWord == None || h.extensionWord == Some(0x3001_0000))
            && (h.extensionWord.Some? <==>
                  if mlow then |p| > 0 && 0x80 <= p[0] <= 0xbf
                  else |p| == 1 || |p| == 2 || (3 <= |p| <= 15 && 0x08 <= p[0] <= 0x0f)
                       || (3 <= |p| <= 6 && 0x30 <= p[0] <= 0x3f))
  {
    hide HeaderFor, StreamAfter, Configured;
    PacketHeader(ssrc, samples, mlow, frames, k);
  }

  /** The sequencer takes a priming frame for no speech, so it never sets the speech
      latch. It also leaves a set one alone, except for the second priming frame
      under the MLow profile: its first byte 0x90 reads as MLow comfort noise too. */
  lemma PrimingTransparentIff(s: Stream, f: Frame)
    requires || f.payload == [0x12, 0x36, 0x26, 0x2b, 0x4a, 0xc8, 0x2b, 0x09, 0xc9, 0x1f, 0x34, 0xc2, 0xd6, 0x7a,
                              0x01, 0x73, 0x1b, 0x2e]
             || f.payload == [0x90, 0xb8, 0x14, 0x14, 0xc4]
    ensures HeaderFor(s, f).extensionWord.Some? <==> s.mlow && f.payload[0] == 0x90
    ensures NextStream(s, f).speechStarted == s.speechStarted
       <==> !(s.mlow && f.payload[0] == 0x90 && s.speechStarted)
  {}

  /** Speech, then the second priming frame, then speech: marked twice. */
  lemma PrimingFrameReopensSpeech(ssrc: u32, samples: u32)
    ensures var speech := Frame([0x48], false);
            var frames := [speech, Frame(PRIMING_FRAME_2, false), speech];
            var s := Configured(ssrc, samples, true);
            && HeaderFor(StreamAfter(s, frames[..0]), frames[0]).marker
            && HeaderFor(StreamAfter(s, frames[..2]), frames[2]).marker
  {
    var speech := Frame([0x48], false);
    var frames := [speech, Frame(PRIMING_FRAME_2, false), speech];
    PacketHeader(ssrc, samples, true, frames, 0);
    PacketHeader(ssrc, samples, true, frames, 2);
    NotInSpeechYet(true);
    assert frames[..0] == [] && frames[..2] == [frames[0]] + [frames[1]];
    InSpeechStep(true, [frames[0]], frames[1]);
  }

  class RtpStream {
    const ssrc: u32
    var sn: u16
    var timestamp: u32
    var lastSent: Option<u32>
    const samples: u32
    var speechStarted: bool
    var markers: bool
    var mlow: bool
    var payloadType: byte

    function View(): (s: Stream)
      reads this
    {
      Stream(ssrc, sn, timestamp, lastSent, samples, speechStarted, markers, mlow, payloadType)
    }

    constructor (ssrc: u32, samples: u32)
      ensures View() == NewStream(ssrc, samples)
    {
      this.ssrc, this.samples := ssrc, samples;
      sn, timestamp, lastSent := 1, 0, None;
      speechStarted, markers, mlow, payloadType := false, true, true, 120;
    }

    method SetPayloadType(pt: byte) returns (ok: bool)
      modifies this
      ensures ok <==> pt <= 127
      ensures View() == if ok then old(View()).(payloadType := pt) else old(View())
    {
      if pt > 127 {
        return false;
      }
      payloadType := pt;
      return true;
    }

    method SetMlowProfile(enabled: bool)
      modifies this
      ensures View() == old(View()).(mlow := enabled, markers := enabled)
    {
      mlow := enabled;
      markers := enabled;
    }

    method NextPacket(payload: seq<byte>, marker: bool) returns (h: RtpHeader)
      modifies this
      ensures h == HeaderFor(old(View()), Frame(payload, marker))
      ensures View() == NextStream(old(View()), Frame(payload, marker))
    {
      var dtx := IsDtx(mlow, payload);
      var priming := IsPriming(payload);
      var speech := !dtx && !priming;
      var useMarker := marker || (markers && speech && !speechStarted);
      if dtx {
        speechStarted := false;
      } else if speech {
        speechStarted := true;
      }
      h := RtpHeader(useMarker, payloadType, sn, timestamp, ssrc, if dtx then Some(DTX_WORD) else None);
      lastSent := Some(h.timestamp);
      sn := (sn + 1) % 0x1_0000;
      timestamp := (timestamp + samples) % 0x1_0000_0000;
    }
  }
}
