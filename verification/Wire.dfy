/** The bytes themselves: what stands where in a packet on the wire, and what is
    read out of one, in terms of the frames, the keys, AES and HMAC alone. */
module Wire {
  import opened Bytes
  import opened Rollover
  import opened Srtp
  import opened Rtp
  import opened Media
  import opened Receiver

  /** The AES counter block of section 4.1.1 of RFC 3711: block `j` of packet
      index `i`. */
  function AesBlock(salt: seq<byte>, ssrc: u32, i: nat, j: nat): (b: nat) {
    var used := if |salt| <= 14 then salt else salt[..14];
    (Xor(Xor(BeVal(used) * 0x1_0000, ssrc * 0x1_0000_0000_0000_0000), i * 0x1_0000) + j)
    % 0x1_0000_0000_0000_0000_0000_0000_0000_0000
  }

  lemma BlockIsAesBlock(salt: seq<byte>, ssrc: u32, roc: u32, sn: u16, j: nat)
    ensures CounterBlock(RtpIv(salt, ssrc, roc, sn), j) == AesBlock(salt, ssrc, roc * 0x1_0000 + sn, j)
  {
    hide Xor, RtpIv;
    IvMatchesRfc3711(salt, ssrc, roc, sn);
  }

  lemma CryptByte(c: Crypto, keys: Keys, ssrc: u32, sn: u16, roc: u32, payload: seq<byte>, p: nat)
    requires p < |payload|
    ensures CryptPayload(c, keys, ssrc, sn, roc, payload)[p]
         == Xor(payload[p], c.aes(keys.cipherKey, AesBlock(keys.salt, ssrc, roc * 0x1_0000 + sn, p / 16), p % 16))
  {
    hide Xor, AesBlock, CounterBlock, RtpIv;
    BlockIsAesBlock(keys.salt, ssrc, roc, sn, p / 16);
  }

  lemma TagIsHmac(c: Crypto, keys: Keys, body: seq<byte>, roc: u32, i: nat)
    requires i < 4
    ensures WarpTag(c, keys, body, roc)[i] == c.hmac(keys.authKey, body + Be32(roc), i)
  {}

  lemma TagBytes(c: Crypto, keys: Keys, w: seq<byte>, roc: u32) returns (q: seq<byte>, tag: seq<byte>)
    requires |w| >= 4 && w[|w| - 4..] == WarpTag(c, keys, w[..|w| - 4], roc)
    ensures |q| == 4 && BeVal(q) == roc && |tag| == 4 && w[|w| - 4..] == tag
    ensures forall i :: 0 <= i < 4 ==> tag[i] == c.hmac(keys.authKey, w[..|w| - 4] + q, i)
  {
    hide WarpTag, Be32, BeVal;
    q, tag := Be32(roc), w[|w| - 4..];
    BeValBe32(roc);
    forall i | 0 <= i < 4
      ensures tag[i] == c.hmac(keys.authKey, w[..|w| - 4] + q, i)
    {
      TagIsHmac(c, keys, w[..|w| - 4], roc, i);
    }
  }

  // ----- what is sent -----

  /** The parts of packet `k` on the wire. */
  lemma SentParts(call: Call, frames: seq<Frame>, k: nat)
    requires k < |frames|
    ensures var s := PacketAt(call, frames, k);
            && s.header == HeaderFor(StreamAfter(Configured(call.ssrc, 960, call.mlow), frames[..k]), frames[k])
            && s.wire == EncodeHeader(s.header)
                         + (CryptPayload(call.c, call.keys, call.ssrc, SeqOf(k + 1), RocOf(k + 1), frames[k].payload)
                            + WarpTag(call.c, call.keys, s.wire[..|s.wire| - 4], RocOf(k + 1)))
            && |s.wire| == ByteSize(s.header) + |frames[k].payload| + 4
  {
    hide Protect, EncodeHeader, WarpTag, CryptPayload, Classify, RocOf, SeqOf, Advance, HeaderFor, StreamAfter,
         Configured;
    var s := PacketAt(call, frames, k);
    SenderState(call, frames[..k]);
    SentIndex(call, frames, k);
    WireOf(call, frames, k);
    ProtectedParts(call, s.header, s.payload, s.roc);
  }

  /** The tag: for the four bytes that spell the counter, HMAC under the
      authentication key over the packet before the tag and those bytes. */
  lemma SentTag(call: Call, frames: seq<Frame>, k: nat) returns (roc: seq<byte>, tag: seq<byte>)
    requires k < |frames|
    ensures |roc| == |tag| == 4 && BeVal(roc) == (k + 1) / 0x1_0000 % 0x1_0000_0000
    ensures var w := PacketAt(call, frames, k).wire;
            && |w| >= 4 && w[|w| - 4..] == tag
            && forall i :: 0 <= i < 4 ==> tag[i] == call.c.hmac(call.keys.authKey, w[..|w| - 4] + roc, i)
  {
    hide PacketAt, EncodeHeader, WarpTag, CryptPayload, BeVal;
    SentParts(call, frames, k);
    var w := PacketAt(call, frames, k).wire;
    assert w[|w| - 4..] == WarpTag(call.c, call.keys, w[..|w| - 4], RocOf(k + 1));
    roc, tag := TagBytes(call.c, call.keys, w, RocOf(k + 1));
  }

  /** The payload: each byte XORed with the AES keystream of section 4.1.1 of RFC
      3711 under the cipher key, at packet index k + 1. */
  lemma SentPayload(call: Call, frames: seq<Frame>, k: nat, p: nat)
    requires k < |frames| && p < |frames[k].payload|
    ensures var w, f := PacketAt(call, frames, k).wire, frames[k].payload;
            var block := AesBlock(call.keys.salt, call.ssrc, (k + 1) % 0x1_0000_0000_0000, p / 16);
            && |w| >= |f| + 4
            && w[|w| - 4 - |f| + p] == Xor(f[p], call.c.aes(call.keys.cipherKey, block, p % 16))
  {
    hide PacketAt, EncodeHeader, WarpTag, CryptPayload, Xor, AesBlock, RocOf, SeqOf;
    SentParts(call, frames, k);
    IndexOf(k + 1);
    CryptByte(call.c, call.keys, call.ssrc, SeqOf(k + 1), RocOf(k + 1), frames[k].payload, p);
  }

  /** The header: version 2 with an extension, marker and payload type 120, the
      packet's number, 960 samples a packet, the SSRC, and the 0xdebe extension, which
      carries its one word exactly on comfort noise. */
  lemma SentHeader(call: Call, frames: seq<Frame>, k: nat)
    requires k < |frames|
    ensures var w, f := PacketAt(call, frames, k).wire, frames[k];
            var noise := ComfortNoise(call.mlow, f.payload);
            var marked := f.marker || (call.mlow && Voice(true, f.payload) && !InSpeech(true, frames[..k]));
            && |w| == (if noise then 20 else 16) + |f.payload| + 4
            && w[0] == 0x90 && w[1] == (if marked then 0x80 else 0) + 120
            && BeVal(w[2..4]) == (k + 1) % 0x1_0000
            && BeVal(w[4..8]) == k * 960 % 0x1_0000_0000
            && BeVal(w[8..12]) == call.ssrc
            && w[12..14] == [0xde, 0xbe] && w[14] == 0 && w[15] == (if noise then 1 else 0)
            && (noise ==> w[16..20] == [0x30, 0x01, 0, 0])
  {
    hide PacketAt, EncodeHeader, HeaderFor, StreamAfter, Configured, WarpTag, CryptPayload, InSpeech, Voice,
         ComfortNoise, Be16, Be32, BeVal;
    SentParts(call, frames, k);
    var s, f := PacketAt(call, frames, k), frames[k];
    var h := s.header;
    PacketHeader(call.ssrc, 960, call.mlow, frames, k);
    HeaderLayout(h, CryptPayload(call.c, call.keys, call.ssrc, SeqOf(k + 1), RocOf(k + 1), f.payload)
                    + WarpTag(call.c, call.keys, s.wire[..|s.wire| - 4], RocOf(k + 1)));
    BeValBe16(h.sequenceNumber);
    BeValBe32(h.timestamp);
    BeValBe32(h.ssrc);
    assert Be32(0x3001_0000) == [0x30, 0x01, 0, 0] by { DtxWordBytes(); }
  }

  lemma DtxWordBytes()
    ensures Be32(0x3001_0000) == [0x30, 0x01, 0, 0]
  {}

  // ----- what is heard -----

  /** Every datagram that is heard carries, in its last four bytes, the HMAC under the
      authentication key of what stands before them and the counter guessed. */
  lemma HeardTag(call: Call, packets: seq<seq<byte>>, j: nat) returns (roc: seq<byte>, tag: seq<byte>)
    requires j < |packets| && OutcomeAt(call, RECV_INIT, packets, j).Some?
    ensures var t, w := RecvAfter(call, RECV_INIT, packets[..j]), packets[j];
            var h := OutcomeAt(call, RECV_INIT, packets, j).value.header;
            && |roc| == |tag| == 4 && BeVal(roc) == Estimate(t, h.sequenceNumber) && |w| >= 4 && w[|w| - 4..] == tag
            && forall i :: 0 <= i < 4 ==> tag[i] == call.c.hmac(call.keys.authKey, w[..|w| - 4] + roc, i)
  {
    hide RecvAfter, WarpTag, Be32, BeVal, Estimate, CryptPayload, ParseHeader, HeaderLength, Commit;
    var t, w := RecvAfter(call, RECV_INIT, packets[..j]), packets[j];
    var v := Estimate(t, OutcomeAt(call, RECV_INIT, packets, j).value.header.sequenceNumber);
    AcceptedWasTagged(call, t, w);
    roc, tag := TagBytes(call.c, call.keys, w, v);
  }

  /** And what is heard are its own bytes: the header fields where they stand, the
      payload under the keystream of the guessed index. */
  lemma HeardBytes(call: Call, packets: seq<seq<byte>>, j: nat)
    requires j < |packets| && OutcomeAt(call, RECV_INIT, packets, j).Some?
    ensures var t, w := RecvAfter(call, RECV_INIT, packets[..j]), packets[j];
            var r := OutcomeAt(call, RECV_INIT, packets, j).value;
            var h, n := r.header, |w| - 4 - |r.payload|;
            var i := Estimate(t, h.sequenceNumber) * 0x1_0000 + h.sequenceNumber;
            && 12 <= n && 0x80 <= w[0] <= 0xbf
            && (h.marker <==> w[1] >= 0x80) && h.payloadType == w[1] % 0x80
            && h.sequenceNumber == BeVal(w[2..4]) && h.timestamp == BeVal(w[4..8]) && h.ssrc == BeVal(w[8..12])
            && forall p :: 0 <= p < |r.payload| ==>
                 r.payload[p] == Xor(w[n + p], call.c.aes(call.keys.cipherKey,
                                                          AesBlock(call.keys.salt, h.ssrc, i, p / 16), p % 16))
  {
    hide RecvAfter, WarpTag, BeVal, Estimate, CryptPayload, Commit, Xor, AesBlock, TagVerifies;
    var t, w := RecvAfter(call, RECV_INIT, packets[..j]), packets[j];
    var r := OutcomeAt(call, RECV_INIT, packets, j).value;
    var h, body := r.header, Body(w);
    BeVal2(w[2], w[3]);
    BeVal4(w[4], w[5], w[6], w[7]);
    BeVal4(w[8], w[9], w[10], w[11]);
    assert w[2..4] == [w[2], w[3]] && w[4..8] == [w[4], w[5], w[6], w[7]] && w[8..12] == [w[8], w[9], w[10], w[11]];
    var n, v := HeaderLength(body).value, Estimate(t, h.sequenceNumber);
    var i := v * 0x1_0000 + h.sequenceNumber;
    forall p | 0 <= p < |r.payload|
      ensures r.payload[p] == Xor(w[n + p], call.c.aes(call.keys.cipherKey,
                                                       AesBlock(call.keys.salt, h.ssrc, i, p / 16), p % 16))
    {
      CryptByte(call.c, call.keys, h.ssrc, h.sequenceNumber, v, body[n..], p);
    }
  }

  /** What any peer sends, CSRC list and extension or not, is heard: with its tag and
      ciphertext right under the counter guessed, it gives back header and payload. */
  lemma PeerPacketHeard(
    call: Call, t: RecvRoc, h: PeerHeader, payload: seq<byte>, ct: seq<byte>, roc: seq<byte>, tag: seq<byte>)
    requires Valid(h) && !(h.marker && 72 <= h.payloadType <= 79)
    requires |roc| == 4 && BeVal(roc) == Estimate(t, h.sequenceNumber) && |ct| == |payload|
    requires forall p :: 0 <= p < |ct| ==>
               ct[p] == Xor(payload[p],
                            call.c.aes(call.keys.cipherKey,
                                       AesBlock(call.keys.salt, h.ssrc,
                                                BeVal(roc) * 0x1_0000 + h.sequenceNumber, p / 16), p % 16))
    requires |tag| == 4
    requires forall i :: 0 <= i < 4 ==> tag[i] == call.c.hmac(call.keys.authKey, PeerBytes(h) + ct + roc, i)
    ensures Receive(call, t, PeerBytes(h) + ct + tag)
         == (Commit(t, Estimate(t, h.sequenceNumber), h.sequenceNumber), Some(Received(Seen(h), payload)))
  {
    hide PeerBytes, HeaderLength, ParseHeader, Commit, Estimate, BeVal, Be32, Xor, AesBlock, Classify, WarpTag,
         CryptPayload;
    var v := Estimate(t, h.sequenceNumber);
    var body := PeerBytes(h) + ct;
    var w := body + tag;
    FourBytes(roc, v);
    PeerHeaderRoundTrip(h, ct);
    PeerPacketsAreMedia(h, ct + tag);
    assert w == PeerBytes(h) + (ct + tag) && Body(w) == body && w[|w| - 4..] == tag;
    forall i | 0 <= i < 4
      ensures WarpTag(call.c, call.keys, body, v)[i] == tag[i]
    {
      TagIsHmac(call.c, call.keys, body, v, i);
    }
    assert WarpTag(call.c, call.keys, body, v) == tag;
    assert body[|PeerBytes(h)|..] == ct;
    forall p | 0 <= p < |ct|
      ensures CryptPayload(call.c, call.keys, h.ssrc, h.sequenceNumber, v, payload)[p] == ct[p]
    {
      CryptByte(call.c, call.keys, h.ssrc, h.sequenceNumber, v, payload, p);
    }
    assert CryptPayload(call.c, call.keys, h.ssrc, h.sequenceNumber, v, payload) == ct;
    CryptIsInvolution(call.c, call.keys, h.ssrc, h.sequenceNumber, v, payload);
  }

  /** Four bytes are the big-endian form of the number they spell. */
  lemma FourBytes(s: seq<byte>, n: u32)
    requires |s| == 4 && BeVal(s) == n
    ensures s == Be32(n)
  {
    hide BeVal, Be32, U32;
    assert s == [s[0], s[1], s[2], s[3]];
    BeVal4(s[0], s[1], s[2], s[3]);
    Be32OfU32(s[0], s[1], s[2], s[3]);
  }
}
