/** The STUN Allocate request of a call: relay token, stream descriptors and
    relay endpoint under MESSAGE-INTEGRITY. */
module Allocate {
  import opened Bytes
  import opened Common
  import opened Srtp
  import opened Stun
  import opened ProtoWire

  const MSG_ALLOCATE_REQUEST: u16 := 0x0003
  const ATTR_RELAY_TOKEN: u16 := 0x4000
  const ATTR_STREAM_DESCRIPTORS: u16 := 0x4024
  const ATTR_RELAY_ENDPOINT: u16 := 0x0016

  function AllocateAttrs(token: seq<byte>, endpointXor: seq<byte>, ssrcOf: u32 -> u32): (a: seq<Attribute>) {
    [Attribute(ATTR_RELAY_TOKEN, token),
     Attribute(ATTR_STREAM_DESCRIPTORS, StreamDescriptors(ssrcOf)),
     Attribute(ATTR_RELAY_ENDPOINT, Be16(1) + endpointXor)]
  }

  function BuildAllocate(
    c: Crypto, tx: Tx, token: seq<byte>, endpointXor: seq<byte>, key: seq<byte>, ssrcOf: u32 -> u32)
    : (message: seq<byte>)
  {
    EncodeRequest(c, MSG_ALLOCATE_REQUEST, tx, AttrsBytes(AllocateAttrs(token, endpointXor, ssrcOf)), Some(key), false)
  }

  /** For any relay token the request is a complete STUN message of its type. It tells
      its true length, and its HMAC checks out, exactly if its body fits 16 bits. */
  lemma AllocateIsWellFormed(
    c: Crypto, tx: Tx, token: seq<byte>, endpointXor: seq<byte>, key: seq<byte>, ssrcOf: u32 -> u32)
    requires |endpointXor| == 6
    ensures var m := BuildAllocate(c, tx, token, endpointXor, key, ssrcOf);
            && IsComplete(m) && MessageType(m) == MSG_ALLOCATE_REQUEST && |m| >= 44
            && (DeclaredLength(m) == |m| - 20 <==> |m| - 20 < 0x1_0000)
            && (IntegrityOk(c, key, m, |m| - 24) <==> |m| - 20 < 0x1_0000)
  {
    hide AttrsBytes, AttrBytes, StreamDescriptors, EncodeRequest, IsComplete, MessageType, DeclaredLength;
    var bytes := AttrsBytes(AllocateAttrs(token, endpointXor, ssrcOf));
    AttrsAligned(AllocateAttrs(token, endpointXor, ssrcOf));
    EncodedIsComplete(c, MSG_ALLOCATE_REQUEST, tx, bytes, Some(key), false);
    if |bytes| + 24 < 0x1_0000 {
      IntegrityVerifies(c, MSG_ALLOCATE_REQUEST, tx, bytes, key, false);
    }
  }

  /** What is in it, byte for byte: the token, the stream descriptors, and the relay
      endpoint behind a 16-bit one, each with its type and length, padded with zeros. */
  lemma AllocateLayout(
    c: Crypto, tx: Tx, token: seq<byte>, endpointXor: seq<byte>, key: seq<byte>, ssrcOf: u32 -> u32)
    requires |endpointXor| == 6 && |token| < 0x1_0000
    ensures var m, d := BuildAllocate(c, tx, token, endpointXor, key, ssrcOf), StreamDescriptors(ssrcOf);
            var t := 24 + |token| + Pad4(|token|);
            var e := t + 4 + |d| + Pad4(|d|);
            && |m| == e + 12 + 24 && BeVal(m[..2]) == 0x0003 && m[8..20] == tx
            && m[20..22] == [0x40, 0x00] && BeVal(m[22..24]) == |token| && m[24..24 + |token|] == token
            && m[t..t + 2] == [0x40, 0x24] && BeVal(m[t + 2..t + 4]) == |d| && m[t + 4..t + 4 + |d|] == d
            && m[e..e + 4] == [0x00, 0x16, 0, 8] && m[e + 4..e + 6] == [0, 1] && m[e + 6..e + 12] == endpointXor
            && m[e + 12..e + 16] == [0, 8, 0, 20]
  {
    hide AttrsBytes, AttrBytes, StreamDescriptors, EncodeRequest, BeVal, Be16, Pad4;
    var m, attrs := BuildAllocate(c, tx, token, endpointXor, key, ssrcOf), AllocateAttrs(token, endpointXor, ssrcOf);
    var a, b, x := attrs[0], attrs[1], attrs[2];
    var bytes := AttrsBytes(attrs);
    DescriptorsAreShort(ssrcOf);
    ThreeInARow(a, b, x);
    RequestLayout(c, MSG_ALLOCATE_REQUEST, tx, bytes, Some(key), false);
    EncodedIsComplete(c, MSG_ALLOCATE_REQUEST, tx, bytes, Some(key), false);
    Kinds();
    var n, k := |AttrBytes(a)|, |AttrBytes(b)|;
    assert m[20..20 + n] == bytes[..n];
    assert m[20 + n..20 + n + k] == bytes[n..n + k];
    assert m[20 + n + k..20 + |bytes|] == bytes[n + k..];
    AttrInside(m, 20, a);
    AttrInside(m, 20 + n, b);
    AttrInside(m, 20 + n + k, x);
    var e := 20 + n + k;
    assert m[e..e + 4] == m[e..e + 2] + m[e + 2..e + 4];
    assert m[e + 4..e + 6] == x.value[..2] && m[e + 6..e + 12] == x.value[2..];
    SpellsEight(m[e + 2..e + 4]);
  }

  lemma ThreeInARow(a: Attribute, b: Attribute, c: Attribute)
    ensures AttrsBytes([a, b, c]) == AttrBytes(a) + AttrBytes(b) + AttrBytes(c)
  {
    hide AttrBytes;
    assert [a, b, c][1..] == [b, c] && [b, c][1..] == [c] && [c][1..] == [];
    assert AttrsBytes([c]) == AttrBytes(c);
    assert AttrBytes(a) + (AttrBytes(b) + AttrBytes(c)) == AttrBytes(a) + AttrBytes(b) + AttrBytes(c);
  }

  /** An attribute that stands in a message at `off`, taken apart. */
  lemma AttrInside(m: seq<byte>, off: nat, a: Attribute)
    requires |a.value| < 0x1_0000 && off + |AttrBytes(a)| <= |m| && m[off..off + |AttrBytes(a)|] == AttrBytes(a)
    ensures off + 4 + |a.value| <= |m|
    ensures m[off..off + 2] == Be16(a.kind) && BeVal(m[off + 2..off + 4]) == |a.value|
    ensures m[off + 4..off + 4 + |a.value|] == a.value
  {
    hide Be16, BeVal, Pad4;
    var s := AttrBytes(a);
    assert s[..2] == Be16(a.kind) && s[2..4] == Be16(|a.value|) && s[4..4 + |a.value|] == a.value;
    SliceOfSlice(m, off, |s|, 0, 2);
    SliceOfSlice(m, off, |s|, 2, 4);
    SliceOfSlice(m, off, |s|, 4, 4 + |a.value|);
    BeValBe16(|a.value|);
  }

  lemma Kinds()
    ensures Be16(ATTR_RELAY_TOKEN) == [0x40, 0x00] && Be16(ATTR_STREAM_DESCRIPTORS) == [0x40, 0x24]
    ensures Be16(ATTR_RELAY_ENDPOINT) == [0x00, 0x16] && Be16(MSG_ALLOCATE_REQUEST) == [0x00, 0x03]
    ensures Be16(1) == [0, 1] && Pad4(8) == 0
  {}

  lemma SpellsEight(s: seq<byte>)
    requires |s| == 2 && BeVal(s) == 8
    ensures s == [0, 8]
  {
    assert s == [s[0], s[1]];
    BeVal2(s[0], s[1]);
  }

  lemma ThreeAttrs(a: Attribute, b: Attribute, c: Attribute)
    ensures |AttrsBytes([a, b, c])|
         == 12 + |a.value| + Pad4(|a.value|) + |b.value| + Pad4(|b.value|) + |c.value| + Pad4(|c.value|)
  {
    hide AttrBytes, AttrsBytes, Pad4;
    ThreeInARow(a, b, c);
  }

  /** How long a token may be: the body fits exactly if the padded token leaves room
      for the padded descriptors. Up to 65392 bytes always do, as the descriptors
      never take more than 96. */
  lemma TokenFits(
    c: Crypto, tx: Tx, token: seq<byte>, endpointXor: seq<byte>, key: seq<byte>, ssrcOf: u32 -> u32)
    requires |endpointXor| == 6
    ensures var t, d := |token|, |StreamDescriptors(ssrcOf)|;
            && (|BuildAllocate(c, tx, token, endpointXor, key, ssrcOf)| - 20 < 0x1_0000
                <==> t + Pad4(t) + d + Pad4(d) <= 65488)
            && (t <= 65392 ==> t + Pad4(t) + d + Pad4(d) <= 65488)
  {
    hide AttrsBytes, AttrBytes, StreamDescriptors, Pad4, EncodeRequest, IsComplete, DeclaredLength, MessageType;
    var attrs := AllocateAttrs(token, endpointXor, ssrcOf);
    DescriptorsAreShort(ssrcOf);
    ThreeAttrs(attrs[0], attrs[1], attrs[2]);
    EncodedIsComplete(c, MSG_ALLOCATE_REQUEST, tx, AttrsBytes(attrs), Some(key), false);
    PaddedSize(|token|, 65392);
    PaddedSize(|StreamDescriptors(ssrcOf)|, 96);
    PaddedSize(8, 8);
  }

  lemma DescriptorsAreShort(ssrcOf: u32 -> u32)
    ensures |StreamDescriptors(ssrcOf)| <= 96
  {
    hide StreamDescriptors, Decode, ReadFields, RowFields, LiveRows;
    DescriptorsRoundTrip(ssrcOf);
  }

  lemma PaddedSize(n: nat, max: nat)
    requires max % 4 == 0
    ensures (n + Pad4(n)) % 4 == 0 && n <= n + Pad4(n)
    ensures n <= max ==> n + Pad4(n) <= max
  {}
}
