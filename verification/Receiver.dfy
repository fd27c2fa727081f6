/** The receiving side over whole runs: against a network that drops, repeats,
    reorders and invents datagrams, the receiver hears exactly what was sent. */
module Receiver {
  import opened Bytes
  import opened Rollover
  import opened Srtp
  import opened Rtp
  import opened Media

  /** The receive arm of the media loop: demultiplex, then unprotect. */
  function Receive(call: Call, t: RecvRoc, packet: seq<byte>): (r: (RecvRoc, Option<Received>)) {
    if Classify(packet).Media? then Unprotect(call.c, call.keys, t, packet) else (t, None)
  }

  function RecvAfter(call: Call, t: RecvRoc, packets: seq<seq<byte>>): (r: RecvRoc) {
    if |packets| == 0 then t
    else Receive(call, RecvAfter(call, t, packets[..|packets| - 1]), packets[|packets| - 1]).0
  }

  /** What the receiver made of datagram `j`. */
  function OutcomeAt(call: Call, t: RecvRoc, packets: seq<seq<byte>>, j: nat): (r: Option<Received>)
    requires j < |packets|
  {
    Receive(call, RecvAfter(call, t, packets[..j]), packets[j]).1
  }

  // ----- dropped packets leave no trace -----

  lemma DroppedKeepsTracker(call: Call, t: RecvRoc, packet: seq<byte>)
    requires Receive(call, t, packet).1.None?
    ensures Receive(call, t, packet).0 == t
  {}

  /** The datagrams that were not dropped, and what became of them. */
  function Kept(call: Call, t: RecvRoc, packets: seq<seq<byte>>): (r: seq<seq<byte>>) {
    if |packets| == 0 then []
    else
      var n := |packets| - 1;
      Kept(call, t, packets[..n]) + (if OutcomeAt(call, t, packets, n).Some? then [packets[n]] else [])
  }

  function Heard(call: Call, t: RecvRoc, packets: seq<seq<byte>>): (r: seq<Received>) {
    if |packets| == 0 then []
    else
      var n := |packets| - 1;
      var last := OutcomeAt(call, t, packets, n);
      Heard(call, t, packets[..n]) + (if last.Some? then [last.value] else [])
  }

  /** Deleting every dropped datagram from any input changes neither the tracker
      nor what is heard, and leaves nothing more to drop. */
  lemma {:induction false} DroppedPacketsAreErasable(call: Call, t: RecvRoc, packets: seq<seq<byte>>)
    ensures RecvAfter(call, t, Kept(call, t, packets)) == RecvAfter(call, t, packets)
    ensures Heard(call, t, Kept(call, t, packets)) == Heard(call, t, packets)
    ensures |Kept(call, t, packets)| == |Heard(call, t, packets)|
  {
    hide Receive;
    if |packets| > 0 {
      var n := |packets| - 1;
      var kept := Kept(call, t, packets[..n]);
      DroppedPacketsAreErasable(call, t, packets[..n]);
      if OutcomeAt(call, t, packets, n).Some? {
        assert (kept + [packets[n]])[..|kept|] == kept;
        assert Kept(call, t, packets) == kept + [packets[n]];
      } else {
        assert Kept(call, t, packets) == kept;
        DroppedKeepsTracker(call, RecvAfter(call, t, packets[..n]), packets[n]);
      }
    }
  }

  // ----- authenticity -----

  ghost predicate SentUnder(call: Call, frames: seq<Frame>, packet: seq<byte>, roc: u32) {
    && (exists k :: 0 <= k < |frames| && PacketAt(call, frames, k).wire == packet)
    && (forall k :: 0 <= k < |frames| && PacketAt(call, frames, k).wire == packet ==>
          PacketAt(call, frames, k).roc == roc)
  }

  /** What a 4-byte tag is trusted for on this datagram: it verifies only if the
      datagram is one that was sent, and only under the counter it was sent with. */
  ghost predicate Authentic(call: Call, frames: seq<Frame>, packet: seq<byte>) {
    forall roc: u32 :: TagVerifies(call.c, call.keys, packet, roc) ==> SentUnder(call, frames, packet, roc)
  }

  lemma AcceptedWasTagged(call: Call, t: RecvRoc, packet: seq<byte>)
    requires Receive(call, t, packet).1.Some?
    ensures TagVerifies(call.c, call.keys, packet, Estimate(t, Receive(call, t, packet).1.value.header.sequenceNumber))
  {}

  /** A protected packet, taken apart again. */
  lemma ProtectedParts(call: Call, h: RtpHeader, payload: seq<byte>, roc: u32)
    ensures var ct := CryptPayload(call.c, call.keys, h.ssrc, h.sequenceNumber, roc, payload);
            var body := EncodeHeader(h) + ct;
            var wire := Protect(call.c, call.keys, EncodeHeader(h), payload, h.ssrc, h.sequenceNumber, roc);
            && |wire| >= TAG_LEN && Body(wire) == body
            && wire[|wire| - TAG_LEN..] == WarpTag(call.c, call.keys, body, roc)
            && wire == EncodeHeader(h) + (ct + WarpTag(call.c, call.keys, body, roc))
            && body[ByteSize(h)..] == ct
  {
    hide WarpTag, CryptPayload, EncodeHeader;
  }

  /** Any protected packet, at any tracker: dropped without trace if its tag
      fails at the guessed counter, and given back in the clear if the guess is
      the counter it was protected under. */
  lemma UnprotectUndoesProtect(call: Call, t: RecvRoc, h: RtpHeader, payload: seq<byte>, roc: u32)
    ensures var wire := Protect(call.c, call.keys, EncodeHeader(h), payload, h.ssrc, h.sequenceNumber, roc);
            var v := Estimate(t, h.sequenceNumber);
            && TagVerifies(call.c, call.keys, wire, roc)
            && (v == roc ==> Unprotect(call.c, call.keys, t, wire)
                             == (Commit(t, roc, h.sequenceNumber), Some(Received(Visible(h), payload))))
            && (!TagVerifies(call.c, call.keys, wire, v) ==> Unprotect(call.c, call.keys, t, wire) == (t, None))
  {
    hide WarpTag, CryptPayload, EncodeHeader, Protect, HeaderLength, ParseHeader, Estimate, Commit;
    var ct := CryptPayload(call.c, call.keys, h.ssrc, h.sequenceNumber, roc, payload);
    ProtectedParts(call, h, payload, roc);
    HeaderRoundTrip(h, ct);
    CryptIsInvolution(call.c, call.keys, h.ssrc, h.sequenceNumber, roc, payload);
  }

  lemma WireOf(call: Call, frames: seq<Frame>, k: nat)
    requires k < |frames|
    ensures var p := PacketAt(call, frames, k);
            && p.wire == Protect(call.c, call.keys, EncodeHeader(p.header), p.payload,
                                 p.header.ssrc, p.header.sequenceNumber, p.roc)
            && Classify(p.wire).Media?
  {
    hide SenderAfter, Protect, EncodeHeader, Advance, HeaderFor, Classify;
    var p := PacketAt(call, frames, k);
    var h := p.header;
    SentIndex(call, frames, k);
    ProtectedParts(call, h, p.payload, p.roc);
    var ct := CryptPayload(call.c, call.keys, h.ssrc, h.sequenceNumber, p.roc, p.payload);
    SentPacketsAreMedia(h, ct + WarpTag(call.c, call.keys, EncodeHeader(h) + ct, p.roc));
  }

  /** Byte `p` of packet `k` on the wire, behind its header: the payload byte XORed
      with the keystream byte of its input. */
  lemma CiphertextByte(call: Call, frames: seq<Frame>, k: nat, p: nat)
    requires k < |frames| && p < |frames[k].payload|
    ensures var s := PacketAt(call, frames, k);
            var (block, offset) := KeystreamInput(call, s, p);
            && ByteSize(s.header) + p < |s.wire|
            && s.wire[ByteSize(s.header) + p]
               == XorByte(frames[k].payload[p], call.c.aes(call.keys.cipherKey, block, offset))
  {
    hide PacketAt, EncodeHeader, Protect, XorByte, RtpIv, CounterBlock, WarpTag;
    var s := PacketAt(call, frames, k);
    SentIndex(call, frames, k);
    WireOf(call, frames, k);
    ProtectedParts(call, s.header, s.payload, s.roc);
    var ct := CryptPayload(call.c, call.keys, s.header.ssrc, s.header.sequenceNumber, s.roc, s.payload);
    assert Body(s.wire)[ByteSize(s.header)..][p] == ct[p];
  }

  /** A sent packet is heard if and only if the receiver guesses its counter. */
  lemma SentPacketReceived(call: Call, frames: seq<Frame>, t: RecvRoc, k: nat)
    requires k < |frames| && Authentic(call, frames, PacketAt(call, frames, k).wire)
    ensures var p := PacketAt(call, frames, k);
            Receive(call, t, p.wire)
            == if Estimate(t, SeqOf(k + 1)) == RocOf(k + 1)
               then (Commit(t, RocOf(k + 1), SeqOf(k + 1)), Some(Received(Visible(p.header), frames[k].payload)))
               else (t, None)
  {
    hide PacketAt, Protect, EncodeHeader, Unprotect, TagVerifies, Classify, Estimate, Commit, RocOf, SeqOf;
    var p := PacketAt(call, frames, k);
    SentIndex(call, frames, k);
    WireOf(call, frames, k);
    UnprotectUndoesProtect(call, t, p.header, p.payload, p.roc);
  }

  /** Nothing is ever heard that was not sent. */
  lemma HeardWasSent(call: Call, frames: seq<Frame>, t: RecvRoc, packet: seq<byte>) returns (k: nat)
    requires Authentic(call, frames, packet) && Receive(call, t, packet).1.Some?
    ensures k < |frames| && packet == PacketAt(call, frames, k).wire
  {
    hide PacketAt, Receive, TagVerifies, Estimate;
    AcceptedWasTagged(call, t, packet);
    k :| 0 <= k < |frames| && PacketAt(call, frames, k).wire == packet;
  }

  // ----- the trust is consistent -----

  function SentBody(call: Call, frames: seq<Frame>, k: nat): (b: seq<byte>)
    requires k < |frames|
  {
    Body(PacketAt(call, frames, k).wire)
  }

  /** `m` is what the tag of some sent packet covers. */
  ghost predicate WasTagged(call: Call, frames: seq<Frame>, m: seq<byte>) {
    exists k :: 0 <= k < |frames| && m == TagInput(SentBody(call, frames, k), RocOf(k + 1))
  }

  ghost function TellingByte(call: Call, frames: seq<Frame>, other: u32, m: seq<byte>, i: nat): (b: byte) {
    if i >= 4 || |m| < 4 then 0 else if WasTagged(call, frames, m) then m[|m| - 4 + i] else Be32(other)[i]
  }

  /** An HMAC that spells the counter on everything that was sent, and `other` on
      everything else. */
  ghost function TellingCrypto(call: Call, frames: seq<Frame>, other: u32): (c: Crypto) {
    call.c.(hmac := (key, m, i) => TellingByte(call, frames, other, m, i))
  }

  lemma TellingTag(call: Call, frames: seq<Frame>, other: u32, body: seq<byte>, roc: u32)
    ensures WarpTag(TellingCrypto(call, frames, other), call.keys, body, roc)
         == Be32(if WasTagged(call, frames, TagInput(body, roc)) then roc else other)
  {
    hide Be32, WasTagged;
    assert forall i :: 0 <= i < 4 ==> TagInput(body, roc)[|body| + i] == Be32(roc)[i];
  }

  /** What is tagged does not depend on the tag function. */
  lemma SameBody(call: Call, run: Call, frames: seq<Frame>, k: nat)
    requires k < |frames| && run == call.(c := run.c) && run.c.aes == call.c.aes
    ensures SentBody(run, frames, k) == SentBody(call, frames, k)
  {
    hide Protect, EncodeHeader, WarpTag, StreamAfter, IsDtx, IsSpeech, Configured, RtpIv, Advance, CounterBlock,
         XorByte, Classify;
    var p, q := PacketAt(call, frames, k), PacketAt(run, frames, k);
    SenderState(call, frames[..k]);
    SenderState(run, frames[..k]);
    SentIndex(call, frames, k);
    SentIndex(run, frames, k);
    WireOf(call, frames, k);
    WireOf(run, frames, k);
    ProtectedParts(call, p.header, p.payload, p.roc);
    ProtectedParts(run, q.header, q.payload, q.roc);
  }

  lemma TellingWire(call: Call, frames: seq<Frame>, other: u32, k: nat)
    requires k < |frames|
    ensures var run := call.(c := TellingCrypto(call, frames, other));
            && PacketAt(run, frames, k).roc == RocOf(k + 1)
            && PacketAt(run, frames, k).wire == SentBody(call, frames, k) + Be32(RocOf(k + 1))
  {
    hide Be32, Protect, EncodeHeader, PacketAt, TellingCrypto, RocOf, WarpTag, Classify;
    var run := call.(c := TellingCrypto(call, frames, other));
    TellingKeepsAes(call, frames, other);
    SentIndex(run, frames, k);
    WireOf(run, frames, k);
    var p := PacketAt(run, frames, k);
    ProtectedParts(run, p.header, p.payload, p.roc);
    SameBody(call, run, frames, k);
    TellingTag(call, frames, other, Body(p.wire), p.roc);
  }

  lemma TellingKeepsAes(call: Call, frames: seq<Frame>, other: u32)
    ensures TellingCrypto(call, frames, other).aes == call.c.aes
  {}

  /** The tags of the datagrams that are long enough, as numbers. */
  function TagsOf(packets: seq<seq<byte>>): (r: set<int>)
    ensures |r| <= |packets|
    ensures forall j :: 0 <= j < |packets| && |packets[j]| >= TAG_LEN ==> TagValue(packets[j]) in r
  {
    if |packets| == 0 then {}
    else
      var n := |packets| - 1;
      TagsOf(packets[..n]) + (if |packets[n]| >= TAG_LEN then {TagValue(packets[n])} else {})
  }

  function TagValue(packet: seq<byte>): (v: u32)
    requires |packet| >= TAG_LEN
  {
    var t := packet[|packet| - TAG_LEN..];
    U32(t[0], t[1], t[2], t[3])
  }

  lemma {:induction false} Unused(low: nat, used: set<int>) returns (y: nat)
    ensures low <= y <= low + |used| && y !in used
    decreases |used|
  {
    y := low;
    if low in used { y := Unused(low + 1, used - {low}); }
  }

  lemma TellingIsAuthentic(call: Call, frames: seq<Frame>, other: u32, packet: seq<byte>)
    requires |packet| >= TAG_LEN ==> TagValue(packet) != other
    ensures Authentic(call.(c := TellingCrypto(call, frames, other)), frames, packet)
  {
    hide PacketAt, TellingCrypto, Be32, RocOf, WarpTag, U32;
    var run := call.(c := TellingCrypto(call, frames, other));
    forall roc: u32 | TagVerifies(run.c, run.keys, packet, roc)
      ensures SentUnder(run, frames, packet, roc)
    {
      var body := Body(packet);
      TellingTag(call, frames, other, body, roc);
      Be32RoundTrip(other);
      assert WasTagged(call, frames, TagInput(body, roc));
      var k :| 0 <= k < |frames| && TagInput(body, roc) == TagInput(SentBody(call, frames, k), RocOf(k + 1));
      TagInputInjective(body, roc, SentBody(call, frames, k), RocOf(k + 1));
      TellingWire(call, frames, other, k);
      assert packet == body + packet[|packet| - TAG_LEN..] == PacketAt(run, frames, k).wire;
      forall k' | 0 <= k' < |frames| && PacketAt(run, frames, k').wire == packet
        ensures PacketAt(run, frames, k').roc == roc
      {
        TellingWire(call, frames, other, k');
        SameEnd(SentBody(call, frames, k'), RocOf(k' + 1), body, roc);
      }
    }
  }

  lemma SameEnd(a: seq<byte>, x: u32, b: seq<byte>, y: u32)
    requires a + Be32(x) == b + Be32(y)
    ensures x == y
  {
    TagInputInjective(a, x, b, y);
  }

  /** The trust put in the tag can be had on every run, whatever is invented: given
      the frames and the invented datagrams, fewer than 2^32 all told, there is an
      HMAC under which every sent packet and every invented datagram is authentic. */
  lemma AuthenticityIsConsistent(call: Call, frames: seq<Frame>, invented: seq<seq<byte>>) returns (c: Crypto)
    requires |frames| / 0x1_0000 + |invented| + 1 < ROC_SPACE
    ensures c.aes == call.c.aes
    ensures forall packet :: packet in invented || Origin(call.(c := c), frames, packet) > 0 ==>
              Authentic(call.(c := c), frames, packet)
  {
    hide Authentic, TellingCrypto, PacketAt, TagValue, Origin;
    var other := Unused(|frames| / 0x1_0000 + 1, TagsOf(invented));
    c := TellingCrypto(call, frames, other);
    TellingKeepsAes(call, frames, other);
    forall packet | packet in invented || Origin(call.(c := c), frames, packet) > 0
      ensures Authentic(call.(c := c), frames, packet)
    {
      if packet !in invented {
        OriginAt(call.(c := c), frames, packet);
        TellingWireTag(call, frames, other, Origin(call.(c := c), frames, packet) - 1);
      }
      TellingIsAuthentic(call, frames, other, packet);
    }
  }

  lemma TellingWireTag(call: Call, frames: seq<Frame>, other: u32, k: nat)
    requires k < |frames| && |frames| / 0x1_0000 < other
    ensures var wire := PacketAt(call.(c := TellingCrypto(call, frames, other)), frames, k).wire;
            |wire| >= TAG_LEN && TagValue(wire) != other
  {
    hide PacketAt, TellingCrypto, Be32, U32;
    var wire := PacketAt(call.(c := TellingCrypto(call, frames, other)), frames, k).wire;
    TellingWire(call, frames, other, k);
    assert wire[|wire| - TAG_LEN..] == Be32(RocOf(k + 1));
    Be32RoundTrip(RocOf(k + 1));
    CounterBound(k + 1, |frames|);
  }

  lemma CounterBound(i: nat, n: nat)
    requires i <= n
    ensures RocOf(i) <= n / 0x1_0000
  {}

  // ----- delivery schedules -----

  /** The index of the last of the first `n` sent packets that a datagram is a copy
      of, or -1 if it is a copy of none. */
  function OriginAmong(call: Call, frames: seq<Frame>, packet: seq<byte>, n: nat): (i: int)
    requires n <= |frames|
    ensures i == -1 || 1 <= i <= n
  {
    if n == 0 then -1
    else if packet == PacketAt(call, frames, n - 1).wire then n
    else OriginAmong(call, frames, packet, n - 1)
  }

  /** The index a datagram was sent at, or -1 if it was never sent. */
  function Origin(call: Call, frames: seq<Frame>, packet: seq<byte>): (i: int)
    ensures i == -1 || 1 <= i <= |frames|
  {
    OriginAmong(call, frames, packet, |frames|)
  }

  lemma {:induction false} OriginAmongAt(call: Call, frames: seq<Frame>, packet: seq<byte>, n: nat)
    requires n <= |frames|
    ensures var i := OriginAmong(call, frames, packet, n);
            if i > 0 then packet == PacketAt(call, frames, i - 1).wire
            else forall k :: 0 <= k < n ==> packet != PacketAt(call, frames, k).wire
  {
    hide PacketAt;
    if n > 0 && packet != PacketAt(call, frames, n - 1).wire { OriginAmongAt(call, frames, packet, n - 1); }
  }

  lemma OriginAt(call: Call, frames: seq<Frame>, packet: seq<byte>)
    ensures var i := Origin(call, frames, packet);
            if i > 0 then packet == PacketAt(call, frames, i - 1).wire
            else forall k :: 0 <= k < |frames| ==> packet != PacketAt(call, frames, k).wire
  {
    OriginAmongAt(call, frames, packet, |frames|);
  }

  /** An authentic packet was sent at one index only. */
  lemma OriginIsUnique(call: Call, frames: seq<Frame>, k: nat)
    requires k < |frames| < INDEX_SPACE && Authentic(call, frames, PacketAt(call, frames, k).wire)
    ensures Origin(call, frames, PacketAt(call, frames, k).wire) == k + 1
  {
    hide PacketAt, EncodeHeader, Protect, Origin, Unprotect, TagVerifies, Commit, RocOf, SeqOf;
    var wire := PacketAt(call, frames, k).wire;
    OriginAt(call, frames, wire);
    var k' := Origin(call, frames, wire) - 1;
    SameWire(call, frames, k, k');
    SameIndex(k, k');
    DistinctBelow(k + 1, k' + 1);
  }

  lemma SameWire(call: Call, frames: seq<Frame>, k: nat, k': nat)
    requires k < |frames| && k' < |frames| && Authentic(call, frames, PacketAt(call, frames, k).wire)
    requires PacketAt(call, frames, k).wire == PacketAt(call, frames, k').wire
    ensures SeqOf(k + 1) == SeqOf(k' + 1) && RocOf(k + 1) == RocOf(k' + 1)
  {
    hide PacketAt, EncodeHeader, Protect, Unprotect, TagVerifies, Commit, RocOf, SeqOf, Estimate;
    var p, q := PacketAt(call, frames, k), PacketAt(call, frames, k');
    SentIndex(call, frames, k);
    SentIndex(call, frames, k');
    WireOf(call, frames, k);
    WireOf(call, frames, k');
    var t, t' := RecvRoc(p.roc, p.header.sequenceNumber, true), RecvRoc(p.roc, q.header.sequenceNumber, true);
    UnprotectUndoesProtect(call, t, p.header, p.payload, p.roc);
    UnprotectUndoesProtect(call, t', q.header, q.payload, q.roc);
    assert SentUnder(call, frames, p.wire, p.roc);
    HeaderOfWire(call, p.header, p.payload, p.roc);
    HeaderOfWire(call, q.header, q.payload, q.roc);
  }

  /** The sequence number stands in the clear on the wire. */
  lemma HeaderOfWire(call: Call, h: RtpHeader, payload: seq<byte>, roc: u32)
    ensures var wire := Protect(call.c, call.keys, EncodeHeader(h), payload, h.ssrc, h.sequenceNumber, roc);
            |wire| >= TAG_LEN && ParseHeader(Body(wire)) == Some(Visible(h))
  {
    hide WarpTag, CryptPayload, EncodeHeader, Protect, ParseHeader;
    ProtectedParts(call, h, payload, roc);
    HeaderRoundTrip(h, CryptPayload(call.c, call.keys, h.ssrc, h.sequenceNumber, roc, payload));
  }

  /** What the network delivered, as the indices the datagrams were sent at. */
  function Schedule(call: Call, frames: seq<Frame>, packets: seq<seq<byte>>): (s: seq<int>)
    ensures |s| == |packets|
  {
    seq(|packets|, j requires 0 <= j < |packets| => Origin(call, frames, packets[j]))
  }

  /** Which index the receiver will take next, given the highest it has heard. */
  predicate Acceptable(m: int, i: nat) {
    if m < 0 then i < 0x1_0000
    else || -0x8000 < i - m < 0x8000
         || (i - m == 0x8000 && m % 0x1_0000 < 0x8000)
         || (m - i == 0x8000 && m % 0x1_0000 >= 0x8000)
  }

  /** The highest index delivered, or -1. */
  function Peak(s: seq<int>): (m: int)
    ensures m >= -1
  {
    if |s| == 0 then -1
    else
      var m, i := Peak(s[..|s| - 1]), s[|s| - 1];
      if i > m && i > 0 then i else m
  }

  /** The highest index that can be taken from a schedule, each one given those
      taken before it; or -1. */
  function Reached(s: seq<int>): (m: int)
    ensures m >= -1
  {
    if |s| == 0 then -1
    else
      var m, i := Reached(s[..|s| - 1]), s[|s| - 1];
      if i > m && i > 0 && Acceptable(m, i) then i else m
  }

  predicate NearTo(m: int, i: int) { m < 0 || -INDEX_SPACE / 2 < i - m < INDEX_SPACE / 2 }

  /** No sent packet arrives 2^47 or more indices away from the highest taken. */
  ghost predicate Near(s: seq<int>) {
    forall j :: 0 <= j < |s| && s[j] > 0 ==> NearTo(Reached(s[..j]), s[j])
  }

  /** Sent packets arrive strictly within 2^15 of the highest index delivered before
      them, the first below 2^16. */
  ghost predicate Windowed(s: seq<int>) {
    forall j :: 0 <= j < |s| && s[j] > 0 ==>
      if Peak(s[..j]) < 0 then s[j] < 0x1_0000 else -0x8000 < s[j] - Peak(s[..j]) < 0x8000
  }

  lemma {:induction false} WindowedReachesPeak(s: seq<int>)
    requires Windowed(s)
    ensures Reached(s) == Peak(s) && Near(s)
  {
    forall j | 0 <= j <= |s|
      ensures Reached(s[..j]) == Peak(s[..j])
    {
      WindowedPrefix(s, j);
    }
    assert s[..|s|] == s;
  }

  lemma {:induction false} WindowedPrefix(s: seq<int>, j: nat)
    requires Windowed(s) && j <= |s|
    ensures Reached(s[..j]) == Peak(s[..j])
  {
    if j > 0 {
      WindowedPrefix(s, j - 1);
      assert s[..j][..j - 1] == s[..j - 1];
    }
  }

  // ----- whole runs -----

  ghost predicate AllAuthentic(call: Call, frames: seq<Frame>, packets: seq<seq<byte>>) {
    forall j :: 0 <= j < |packets| ==> Authentic(call, frames, packets[j])
  }

  /** The highest index at which any of the datagrams the receiver accepted was
      sent, or -1. */
  function HighestHeard(call: Call, frames: seq<Frame>, packets: seq<seq<byte>>): (m: int) {
    if |packets| == 0 then -1
    else
      var n := |packets| - 1;
      var m, i := HighestHeard(call, frames, packets[..n]), Origin(call, frames, packets[n]);
      if OutcomeAt(call, RECV_INIT, packets, n).Some? && i > m then i else m
  }

  predicate Synced(t: RecvRoc, m: int) {
    if m < 0 then t == RECV_INIT else t.initialized && t.Index() == m
  }

  lemma GuessedIffAcceptable(t: RecvRoc, m: int, i: nat)
    requires Synced(t, m) && i < INDEX_SPACE && NearTo(m, i)
    ensures Estimate(t, SeqOf(i)) == RocOf(i) <==> Acceptable(m, i)
  {
    hide Estimate, RocOf, InWindow;
    if m >= 0 {
      EstimateExactIff(t, i);
      WindowIsInterval(t, i);
    } else {
      assert Estimate(t, SeqOf(i)) == 0 by { GuessBeforeStart(RECV_INIT, SeqOf(i)); }
      assert RocOf(i) == 0 <==> i < 0x1_0000 by { FirstRoc(i); }
    }
  }

  /** Before anything was heard the guess is the counter the tracker holds. */
  lemma GuessBeforeStart(t: RecvRoc, sn: u16)
    requires !t.initialized
    ensures Estimate(t, sn) == t.roc
  {}

  lemma FirstRoc(i: nat)
    requires i < INDEX_SPACE
    ensures RocOf(i) == 0 <==> i < 0x1_0000
  {}

  lemma WindowIsInterval(t: RecvRoc, i: nat)
    requires i < INDEX_SPACE && -INDEX_SPACE / 2 < i - t.Index() < INDEX_SPACE / 2
    ensures InWindow(t, i) <==> Acceptable(t.Index(), i)
  {
    var m := t.Index();
    assert m % 0x1_0000 == t.sl;
    assert Ahead(t, i) == if i >= m then i - m else INDEX_SPACE + i - m;
  }

  lemma CommitKeepsSync(t: RecvRoc, m: int, i: nat)
    requires Synced(t, m) && i < INDEX_SPACE && Estimate(t, SeqOf(i)) == RocOf(i) && NearTo(m, i)
    ensures Synced(Commit(t, RocOf(i), SeqOf(i)), if i > m then i else m)
  {
    if m >= 0 {
      CommitTakesMax(t, i);
    }
  }

  /** What the receiver makes of a datagram sent at index `i`, or never (-1). */
  function Verdict(call: Call, frames: seq<Frame>, m: int, i: int): (r: Option<Received>)
    requires i <= |frames|
  {
    if i > 0 && Acceptable(m, i) then
      Some(Received(Visible(PacketAt(call, frames, i - 1).header), frames[i - 1].payload))
    else None
  }

  lemma ReceiveStep(call: Call, frames: seq<Frame>, t: RecvRoc, m: int, packet: seq<byte>)
    requires |frames| < INDEX_SPACE && Synced(t, m) && Authentic(call, frames, packet)
    requires Origin(call, frames, packet) > 0 ==> NearTo(m, Origin(call, frames, packet))
    ensures var i := Origin(call, frames, packet);
            && Receive(call, t, packet).1 == Verdict(call, frames, m, i)
            && Synced(Receive(call, t, packet).0, if i > m && i > 0 && Acceptable(m, i) then i else m)
  {
    hide Receive, PacketAt, Authentic, Estimate, Commit, Synced, Acceptable, NearTo, Origin, RocOf, SeqOf;
    var i := Origin(call, frames, packet);
    OriginAt(call, frames, packet);
    if i > 0 {
      SentPacketReceived(call, frames, t, i - 1);
      GuessedIffAcceptable(t, m, i);
      if Acceptable(m, i) { CommitKeepsSync(t, m, i); }
    } else {
      if Receive(call, t, packet).1.Some? {
        var k := HeardWasSent(call, frames, t, packet);
        assert false;
      }
      DroppedKeepsTracker(call, t, packet);
    }
  }

  lemma SyncedAtStart()
    ensures Synced(RECV_INIT, -1)
  {}

  lemma PrefixHypotheses(call: Call, frames: seq<Frame>, packets: seq<seq<byte>>, n: nat)
    requires n <= |packets| && AllAuthentic(call, frames, packets)
    ensures AllAuthentic(call, frames, packets[..n])
    ensures Schedule(call, frames, packets[..n]) == Schedule(call, frames, packets)[..n]
    ensures Near(Schedule(call, frames, packets)) ==> Near(Schedule(call, frames, packets[..n]))
  {
    hide Reached, NearTo, Authentic, Origin;
    var s := Schedule(call, frames, packets);
    assert Schedule(call, frames, packets[..n]) == s[..n];
    assert forall j | 0 <= j < n :: s[..n][..j] == s[..j];
  }

  /** The receiver's counter and last sequence number always spell the highest index
      at which an accepted datagram was sent; which one that is, the delivery
      schedule alone decides. */
  lemma {:induction false} ReceiverTracksHighest(call: Call, frames: seq<Frame>, packets: seq<seq<byte>>)
    requires |frames| < INDEX_SPACE && AllAuthentic(call, frames, packets) && Near(Schedule(call, frames, packets))
    ensures Synced(RecvAfter(call, RECV_INIT, packets), HighestHeard(call, frames, packets))
    ensures HighestHeard(call, frames, packets) == Reached(Schedule(call, frames, packets))
  {
    hide Receive, PacketAt, Authentic, Synced, NearTo, Acceptable, Origin;
    if |packets| == 0 {
      assert Synced(RECV_INIT, -1) by { SyncedAtStart(); }
    } else {
      var n := |packets| - 1;
      PrefixHypotheses(call, frames, packets, n);
      ReceiverTracksHighest(call, frames, packets[..n]);
      ReceiveStep(call, frames, RecvAfter(call, RECV_INIT, packets[..n]),
                  HighestHeard(call, frames, packets[..n]), packets[n]);
    }
  }

  /** The main result. Let the network drop, repeat, reorder and invent datagrams
      as it likes; given the trust put in the tag, datagram `j` is heard exactly
      when it is a sent packet whose index can be taken after those before it, and
      then header and payload are the ones that were sent. */
  lemma ReceiverIsExact(call: Call, frames: seq<Frame>, packets: seq<seq<byte>>, j: nat)
    requires |frames| < INDEX_SPACE && AllAuthentic(call, frames, packets) && Near(Schedule(call, frames, packets))
    requires j < |packets|
    ensures var i := Origin(call, frames, packets[j]);
            OutcomeAt(call, RECV_INIT, packets, j)
            == if i > 0 && Acceptable(Reached(Schedule(call, frames, packets)[..j]), i)
               then Some(Received(Visible(PacketAt(call, frames, i - 1).header), frames[i - 1].payload))
               else None
  {
    hide Receive, PacketAt, Authentic, Synced, NearTo, Acceptable, Origin, Reached, HighestHeard, RecvAfter;
    PrefixHypotheses(call, frames, packets, j);
    ReceiverTracksHighest(call, frames, packets[..j]);
    ReceiveStep(call, frames, RecvAfter(call, RECV_INIT, packets[..j]),
                HighestHeard(call, frames, packets[..j]), packets[j]);
  }

  lemma {:induction false} ReachedGrows(s: seq<int>, j: nat, j': nat)
    requires j <= j' <= |s|
    ensures Reached(s[..j]) <= Reached(s[..j'])
  {
    hide Acceptable;
    if j < j' {
      ReachedGrows(s, j, j' - 1);
      assert s[..j'][..j' - 1] == s[..j' - 1];
    }
  }

  lemma TakenIsReached(s: seq<int>, j: nat)
    requires j < |s| && s[j] > 0 && Acceptable(Reached(s[..j]), s[j])
    ensures s[j] <= Reached(s[..j + 1])
  {
    hide Acceptable;
    assert s[..j + 1][..j] == s[..j];
  }

  /** No list of packets already heard is kept (section 3.3.2 of RFC 3711): a datagram
      that was heard is heard again, with the same header and payload, each time it is
      repeated, as long as the highest index taken is less than 2^15 past it, or exactly
      that at the tie. */
  lemma RepeatIsHeardIff(call: Call, frames: seq<Frame>, packets: seq<seq<byte>>, j: nat, j': nat)
    requires |frames| < INDEX_SPACE && AllAuthentic(call, frames, packets) && Near(Schedule(call, frames, packets))
    requires j < j' < |packets| && packets[j] == packets[j'] && OutcomeAt(call, RECV_INIT, packets, j).Some?
    ensures var i, m := Origin(call, frames, packets[j]), Reached(Schedule(call, frames, packets)[..j']);
            && 0 < i <= m
            && OutcomeAt(call, RECV_INIT, packets, j')
               == if m - i < 0x8000 || (m - i == 0x8000 && m % 0x1_0000 >= 0x8000)
                  then OutcomeAt(call, RECV_INIT, packets, j)
                  else None
  {
    hide OutcomeAt, PacketAt, Authentic, Origin, Reached, NearTo, Synced, AllAuthentic;
    var s := Schedule(call, frames, packets);
    ReceiverIsExact(call, frames, packets, j);
    ReceiverIsExact(call, frames, packets, j');
    TakenIsReached(s, j);
    ReachedGrows(s, j + 1, j');
  }

  /** In particular, while sent packets arrive strictly within 2^15 of the highest
      index delivered, starting below 2^16, none of them is lost, nothing else is
      heard, and the receiver stands at the highest index delivered. */
  lemma WindowedRunHearsAll(call: Call, frames: seq<Frame>, packets: seq<seq<byte>>)
    requires |frames| < INDEX_SPACE && AllAuthentic(call, frames, packets)
    requires Windowed(Schedule(call, frames, packets))
    ensures Synced(RecvAfter(call, RECV_INIT, packets), Peak(Schedule(call, frames, packets)))
    ensures HighestHeard(call, frames, packets) == Peak(Schedule(call, frames, packets))
    ensures forall j :: 0 <= j < |packets| ==>
              var i := Origin(call, frames, packets[j]);
              OutcomeAt(call, RECV_INIT, packets, j)
              == if i > 0
                 then Some(Received(Visible(PacketAt(call, frames, i - 1).header), frames[i - 1].payload))
                 else None
  {
    hide PacketAt, Authentic, OutcomeAt, Origin, Synced, RecvAfter, HighestHeard, Reached, Peak;
    var s := Schedule(call, frames, packets);
    WindowedReachesPeak(s);
    ReceiverTracksHighest(call, frames, packets);
    forall j | 0 <= j < |packets|
      ensures var i := Origin(call, frames, packets[j]);
              OutcomeAt(call, RECV_INIT, packets, j)
              == if i > 0
                 then Some(Received(Visible(PacketAt(call, frames, i - 1).header), frames[i - 1].payload))
                 else None
    {
      ReceiverIsExact(call, frames, packets, j);
      WindowedPrefix(s, j);
      assert s[j] == Origin(call, frames, packets[j]);
    }
  }

  /** Whatever the schedule, nothing is heard that was not sent. */
  lemma NothingElseIsHeard(call: Call, frames: seq<Frame>, packets: seq<seq<byte>>, j: nat)
    requires AllAuthentic(call, frames, packets) && j < |packets|
    requires forall k :: 0 <= k < |frames| ==> packets[j] != PacketAt(call, frames, k).wire
    ensures OutcomeAt(call, RECV_INIT, packets, j) == None
  {
    hide Receive, PacketAt, RecvAfter;
    var t := RecvAfter(call, RECV_INIT, packets[..j]);
    if Receive(call, t, packets[j]).1.Some? {
      var k := HeardWasSent(call, frames, t, packets[j]);
      assert false;
    }
  }

  lemma {:induction false} ReachedAtMost(s: seq<int>, max: nat)
    requires forall j :: 0 <= j < |s| ==> s[j] <= max
    ensures Reached(s) <= max
  {
    hide Acceptable;
    if |s| > 0 { ReachedAtMost(s[..|s| - 1], max); }
  }

  /** Below 2^47 packets the index space is out of the way: `Near` always holds. */
  lemma ShortRunsAreNear(call: Call, frames: seq<Frame>, packets: seq<seq<byte>>)
    requires |frames| < INDEX_SPACE / 2
    ensures Near(Schedule(call, frames, packets))
  {
    hide Origin, Reached;
    var s := Schedule(call, frames, packets);
    forall j | 0 <= j < |s| && s[j] > 0
      ensures NearTo(Reached(s[..j]), s[j])
    {
      ReachedAtMost(s[..j], |frames|);
    }
  }

  /** A receiver that misses the first 65535 packets never hears anything: before
      it has heard a packet it always guesses counter 0. */
  lemma {:induction false} LateReceiverStaysDeaf(call: Call, frames: seq<Frame>, packets: seq<seq<byte>>)
    requires |frames| < INDEX_SPACE && AllAuthentic(call, frames, packets)
    requires forall j, k :: 0 <= j < |packets| && 0 <= k < |frames| && packets[j] == PacketAt(call, frames, k).wire ==>
               k + 1 >= 0x1_0000
    ensures RecvAfter(call, RECV_INIT, packets) == RECV_INIT && Heard(call, RECV_INIT, packets) == []
  {
    hide Receive, PacketAt, Authentic, Origin, Acceptable;
    if |packets| > 0 {
      var n := |packets| - 1;
      PrefixHypotheses(call, frames, packets, n);
      LateReceiverStaysDeaf(call, frames, packets[..n]);
      OriginAt(call, frames, packets[n]);
      assert Synced(RECV_INIT, -1) by { SyncedAtStart(); }
      ReceiveStep(call, frames, RECV_INIT, -1, packets[n]);
      TooLate(Origin(call, frames, packets[n]));
      DroppedKeepsTracker(call, RECV_INIT, packets[n]);
    }
  }

  lemma TooLate(i: int)
    ensures i >= 0x1_0000 ==> !Acceptable(-1, i)
  {}

  // ----- the loop object -----

  /** The state one call's media loop carries, with its send and receive arms. */
  class MediaLoop {
    const mine: Call
    const peer: Call
    const rtp: RtpStream
    const sendRoc: RocTracker
    const recvRoc: RecvRocTracker
    var rtpTx: nat
    var rtpRx: nat
    var decryptOk: nat
    var decryptFail: nat

    constructor (mine: Call, peer: Call)
      ensures fresh(rtp) && fresh(sendRoc) && fresh(recvRoc) && this.mine == mine && this.peer == peer
      ensures Sender(rtp.View(), sendRoc.View()) == NewSender(mine) && recvRoc.View() == RECV_INIT
      ensures rtpTx == 0 && rtpRx == decryptOk + decryptFail == 0
    {
      var r := new RtpStream(mine.ssrc, FRAME_SAMPLES);
      var s := new RocTracker();
      var v := new RecvRocTracker();
      var _ := r.SetPayloadType(120);
      r.SetMlowProfile(mine.mlow);
      this.mine, this.peer, rtp, sendRoc, recvRoc := mine, peer, r, s, v;
      rtpTx, rtpRx, decryptOk, decryptFail := 0, 0, 0, 0;
    }

    /** One send tick. `encoded` is what the codec made of the frame, nothing if it
        failed; `delivered` is whether the transport took the packet. A failed encode
        leaves all as it was; a failed send ends the loop, with the packet's number
        and counter used up. */
    method SendTick(encoded: Option<seq<byte>>, delivered: bool) returns (packet: Option<seq<byte>>, running: bool)
      modifies this`rtpTx, rtp, sendRoc
      ensures encoded.None? ==>
                packet == None && Sender(rtp.View(), sendRoc.View()) == old(Sender(rtp.View(), sendRoc.View()))
      ensures encoded.Some? ==>
                (Sender(rtp.View(), sendRoc.View()), packet)
                == (var r := SendOne(mine, old(Sender(rtp.View(), sendRoc.View())), Frame(encoded.value, false));
                    (r.0, Some(r.1.wire)))
      ensures rtpTx == old(rtpTx) + (if packet.Some? && delivered then 1 else 0)
      ensures running <==> (encoded.Some? ==> delivered)
    {
      if encoded.None? {
        return None, true;
      }
      var payload := encoded.value;
      var h := rtp.NextPacket(payload, false);
      var roc := sendRoc.AdvanceTo(h.sequenceNumber);
      packet := Some(Protect(mine.c, mine.keys, EncodeHeader(h), payload, mine.ssrc, h.sequenceNumber, roc));
      if !delivered {
        return packet, false;
      }
      rtpTx := rtpTx + 1;
      return packet, true;
    }

    method OnDatagram(packet: seq<byte>) returns (r: Option<Received>)
      requires rtpRx == decryptOk + decryptFail
      modifies this`rtpRx, this`decryptOk, this`decryptFail, recvRoc
      ensures (recvRoc.View(), r) == Receive(peer, old(recvRoc.View()), packet)
      ensures rtpRx == decryptOk + decryptFail
      ensures decryptOk == old(decryptOk) + (if r.Some? then 1 else 0)
      ensures rtpRx == old(rtpRx) + (if Classify(packet).Media? then 1 else 0)
    {
      r := None;
      if Classify(packet).Media? {
        rtpRx := rtpRx + 1;
        r := UnprotectPacket(peer.c, peer.keys, recvRoc, packet);
        if r.Some? {
          decryptOk := decryptOk + 1;
        } else {
          decryptFail := decryptFail + 1;
        }
      }
    }
  }
}
