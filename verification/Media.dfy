/** The sending half of the media plane: protecting and unprotecting one packet, and
    the packets of a whole sending run, with the keystream each byte of them takes. */
module Media {
  import opened Bytes
  import opened Rollover
  import opened Srtp
  import opened Rtp

  // ----- one packet -----

  function Protect(c: Crypto, keys: Keys, header: seq<byte>, payload: seq<byte>, ssrc: u32, sn: u16, roc: u32)
    : (packet: seq<byte>)
    ensures |packet| == |header| + |payload| + TAG_LEN
  {
    var body := header + CryptPayload(c, keys, ssrc, sn, roc, payload);
    body + WarpTag(c, keys, body, roc)
  }

  datatype Received = Received(header: RtpHeader, payload: seq<byte>)

  function Body(packet: seq<byte>): (b: seq<byte>)
    requires |packet| >= TAG_LEN
  {
    packet[..|packet| - TAG_LEN]
  }

  /** The packet's last four bytes are its tag under `roc`. */
  predicate TagVerifies(c: Crypto, keys: Keys, packet: seq<byte>, roc: u32) {
    |packet| >= TAG_LEN && WarpTag(c, keys, Body(packet), roc) == packet[|packet| - TAG_LEN..]
  }

  /** Tracker and result after one inbound packet. */
  function Unprotect(c: Crypto, keys: Keys, t: RecvRoc, packet: seq<byte>): (r: (RecvRoc, Option<Received>)) {
    if |packet| < TAG_LEN then (t, None)
    else
      var body := Body(packet);
      var len, hdr := HeaderLength(body), ParseHeader(body);
      if len.None? || hdr.None? then (t, None)
      else
        var h := hdr.value;
        var roc := Estimate(t, h.sequenceNumber);
        if !TagVerifies(c, keys, packet, roc) then (t, None)
        else
          (Commit(t, roc, h.sequenceNumber),
           Some(Received(h, CryptPayload(c, keys, h.ssrc, h.sequenceNumber, roc, body[len.value..]))))
  }

  method UnprotectPacket(c: Crypto, keys: Keys, tracker: RecvRocTracker, packet: seq<byte>)
    returns (r: Option<Received>)
    modifies tracker
    ensures (tracker.View(), r) == Unprotect(c, keys, old(tracker.View()), packet)
  {
    if |packet| < TAG_LEN {
      return None;
    }
    var body := packet[..|packet| - TAG_LEN];
    var tag := packet[|packet| - TAG_LEN..];
    var len := HeaderLength(body);
    var hdr := ParseHeader(body);
    if len.None? || hdr.None? {
      return None;
    }
    var sn := hdr.value.sequenceNumber;
    var roc := Estimate(tracker.View(), sn);
    if WarpTag(c, keys, body, roc) != tag {
      return None;
    }
    tracker.CommitRoc(roc, sn);
    var payload := CryptPayload(c, keys, hdr.value.ssrc, sn, roc, body[len.value..]);
    return Some(Received(hdr.value, payload));
  }

  // ----- the sending run -----

  datatype Sender = Sender(stream: Stream, roc: SendRoc)

  /** A packet as sent: its header and payload, the counter it was sent under and
      its bytes on the wire. */
  datatype Sent = Sent(header: RtpHeader, payload: seq<byte>, roc: u32, wire: seq<byte>)

  const FRAME_SAMPLES: u32 := 960

  /** A call: keys, SSRC and codec profile of one direction. */
  datatype Call = Call(c: Crypto, keys: Keys, ssrc: u32, mlow: bool)

  function NewSender(call: Call): (s: Sender) {
    Sender(Configured(call.ssrc, FRAME_SAMPLES, call.mlow), SEND_INIT)
  }

  function SendOne(call: Call, s: Sender, f: Frame): (r: (Sender, Sent)) {
    var h := HeaderFor(s.stream, f);
    var roc := Advance(s.roc, h.sequenceNumber);
    (Sender(NextStream(s.stream, f), roc),
     Sent(h, f.payload, roc.roc,
          Protect(call.c, call.keys, EncodeHeader(h), f.payload, call.ssrc, h.sequenceNumber, roc.roc)))
  }

  function SenderAfter(call: Call, frames: seq<Frame>): (s: Sender) {
    if |frames| == 0 then NewSender(call)
    else SendOne(call, SenderAfter(call, frames[..|frames| - 1]), frames[|frames| - 1]).0
  }

  function PacketAt(call: Call, frames: seq<Frame>, k: nat): (p: Sent)
    requires k < |frames|
  {
    SendOne(call, SenderAfter(call, frames[..k]), frames[k]).1
  }

  lemma {:induction false} SenderState(call: Call, frames: seq<Frame>)
    ensures SenderAfter(call, frames).stream == StreamAfter(Configured(call.ssrc, FRAME_SAMPLES, call.mlow), frames)
    ensures |frames| == 0 ==> SenderAfter(call, frames).roc == SEND_INIT
    ensures |frames| > 0 ==> SendAt(SenderAfter(call, frames).roc, |frames|)
  {
    hide Configured, Protect, EncodeHeader, IsDtx, IsSpeech;
    if |frames| > 0 {
      var n := |frames| - 1;
      SenderState(call, frames[..n]);
      StreamCounters(call.ssrc, FRAME_SAMPLES, call.mlow, frames[..n]);
      if n > 0 {
        AdvanceExactIff(SenderAfter(call, frames[..n]).roc, n, 1);
      }
    }
  }

  /** Packet `k` has the 48-bit index `k + 1`: its sequence number and the
      counter it is encrypted and tagged under are the two halves of that. */
  lemma SentIndex(call: Call, frames: seq<Frame>, k: nat)
    requires k < |frames|
    ensures var p := PacketAt(call, frames, k);
            && p.header.sequenceNumber == SeqOf(k + 1) && p.roc == RocOf(k + 1)
            && p.header.ssrc == call.ssrc && p.header.payloadType == 120 && p.payload == frames[k].payload
  {
    hide Configured, Protect, EncodeHeader, IsDtx, IsSpeech;
    SenderState(call, frames[..k]);
    StreamCounters(call.ssrc, FRAME_SAMPLES, call.mlow, frames[..k]);
    if k > 0 {
      AdvanceExactIff(SenderAfter(call, frames[..k]).roc, k, 1);
    }
  }

  /** Where byte `p` of packet `k` takes its keystream from: the AES counter block
      and the byte in it. */
  function KeystreamInput(call: Call, sent: Sent, p: nat): (r: (nat, nat)) {
    (CounterBlock(RtpIv(call.keys.salt, call.ssrc, sent.roc, sent.header.sequenceNumber), p / 16), p % 16)
  }

  lemma SameIndex(k: nat, k': nat)
    requires SeqOf(k + 1) == SeqOf(k' + 1) && RocOf(k + 1) == RocOf(k' + 1)
    ensures (k + 1) % INDEX_SPACE == (k' + 1) % INDEX_SPACE
  {
    IndexOf(k + 1);
    IndexOf(k' + 1);
  }

  lemma IndexOf(i: nat)
    ensures i % INDEX_SPACE == RocOf(i) * 0x1_0000 + SeqOf(i)
  {
    var q := i / 0x1_0000;
    assert i == q * 0x1_0000 + i % 0x1_0000;
    assert q == q / ROC_SPACE * ROC_SPACE + q % ROC_SPACE;
  }

  /** In a run of at most 2^48 packets, none longer than 2^16 AES blocks, no two
      payload bytes are ever encrypted with the same keystream byte. */
  lemma KeystreamNeverRepeats(call: Call, frames: seq<Frame>, k: nat, p: nat, k': nat, p': nat)
    requires |frames| <= INDEX_SPACE
    requires k < |frames| && p < |frames[k].payload| <= 0x10_0000
    requires k' < |frames| && p' < |frames[k'].payload| <= 0x10_0000
    requires KeystreamInput(call, PacketAt(call, frames, k), p) == KeystreamInput(call, PacketAt(call, frames, k'), p')
    ensures k == k' && p == p'
  {
    hide *;
    KeystreamCollision(call, PacketAt(call, frames, k), p, PacketAt(call, frames, k'), p');
    SentIndex(call, frames, k);
    SentIndex(call, frames, k');
    SameIndex(k, k');
    DistinctBelow(k + 1, k' + 1);
  }

  lemma DistinctBelow(a: nat, b: nat)
    requires 0 < a <= INDEX_SPACE && 0 < b <= INDEX_SPACE && a % INDEX_SPACE == b % INDEX_SPACE
    ensures a == b
  {}

  lemma KeystreamCollision(call: Call, s: Sent, p: nat, s': Sent, p': nat)
    requires p < 0x10_0000 && p' < 0x10_0000
    requires KeystreamInput(call, s, p) == KeystreamInput(call, s', p')
    ensures s.roc == s'.roc && s.header.sequenceNumber == s'.header.sequenceNumber && p == p'
  {
    hide CounterBlock, RtpIv;
    CounterBlockInjective(call.keys.salt, call.ssrc, s.roc, s.header.sequenceNumber, p / 16,
                          s'.roc, s'.header.sequenceNumber, p' / 16);
  }

  /** The bound is exact: packet `k + 2^48` is encrypted with the keystream of
      packet `k`. */
  lemma KeystreamRepeatsAfterWrap(call: Call, frames: seq<Frame>, k: nat, p: nat)
    requires k + INDEX_SPACE < |frames|
    ensures KeystreamInput(call, PacketAt(call, frames, k), p)
         == KeystreamInput(call, PacketAt(call, frames, k + INDEX_SPACE), p)
  {
    hide PacketAt, CounterBlock, RtpIv;
    SentIndex(call, frames, k);
    SentIndex(call, frames, k + INDEX_SPACE);
    SplitIndex(k + 1 + INDEX_SPACE, (k + 1) / 0x1_0000 + ROC_SPACE, SeqOf(k + 1));
  }
}
