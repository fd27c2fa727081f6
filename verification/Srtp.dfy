/** The E2E-SRTP packet crypto: initialisation vector, AES counter mode and the
    WARP message-integrity tag. AES and HMAC-SHA1 are arbitrary functions. */
module Srtp {
  import opened Bytes
  import opened Rollover

  /** `aes(key, block, i)` is byte `i` of AES under `key` on a 128-bit counter
      block; `hmac(key, message, i)` is byte `i` of HMAC-SHA1. */
  datatype Crypto = Crypto(
    aes: (seq<byte>, nat, nat) -> byte,
    hmac: (seq<byte>, seq<byte>, nat) -> byte)

  datatype Keys = Keys(cipherKey: seq<byte>, salt: seq<byte>, authKey: seq<byte>)

  const TAG_LEN := 4
  const BLOCK_SPACE := 0x1_0000_0000_0000_0000_0000_0000_0000_0000

  // ----- initialisation vector -----

  /** The part of the salt that is used: at most its first 14 bytes. */
  function UsedSalt(salt: seq<byte>): (s: seq<byte>)
    ensures |s| <= 14
  {
    if |salt| <= 14 then salt else salt[..14]
  }

  function Be48(i: nat): (s: seq<byte>)
    requires i < INDEX_SPACE
    ensures |s| == 6
  {
    Be16(i / 0x1_0000_0000) + Be32(i % 0x1_0000_0000)
  }

  /** The IV before the SSRC and the index are mixed in: the salt, right-aligned
      in 14 bytes, and two zero bytes. */
  function IvBase(salt: seq<byte>): (b: seq<byte>)
    ensures |b| == 16
  {
    Zeros(14 - |UsedSalt(salt)|) + UsedSalt(salt) + Zeros(2)
  }

  /** SSRC bytes XORed at 4..8 and index bytes at 8..14. */
  function MixIv(b: seq<byte>, s: seq<byte>, x: seq<byte>): (iv: seq<byte>)
    requires |b| == 16 && |s| == 4 && |x| == 6
    ensures |iv| == 16
  {
    b[..4] + XorSeq(b[4..8], s) + XorSeq(b[8..14], x) + b[14..]
  }

  function RtpIv(salt: seq<byte>, ssrc: u32, roc: u32, sn: u16): (iv: seq<byte>)
    ensures |iv| == 16
  {
    MixIv(IvBase(salt), Be32(ssrc), Be48(roc * 0x1_0000 + sn))
  }

  lemma BeVal48(i: nat)
    requires i < INDEX_SPACE
    ensures BeVal(Be48(i)) == i
  {
    var h, l := i / 0x1_0000_0000, i % 0x1_0000_0000;
    BeValConcat(Be16(h), Be32(l));
    BeVal2(Be16(h)[0], Be16(h)[1]);
    Be16RoundTrip(h);
    BeValBe32(l);
    Powers();
  }

  /** A byte string between zero bytes is a shifted number. */
  lemma BeValPlaced(before: nat, s: seq<byte>, after: nat)
    ensures BeVal(Zeros(before) + s + Zeros(after)) == BeVal(s) * Pow256(after)
  {
    BeValConcat(Zeros(before) + s, Zeros(after));
    BeValConcat(Zeros(before), s);
    BeValZeros(before);
    BeValZeros(after);
  }

  lemma MixIsXorOfThree(b: seq<byte>, s: seq<byte>, x: seq<byte>)
    requires |b| == 16 && |s| == 4 && |x| == 6
    ensures MixIv(b, s, x) == XorSeq(XorSeq(b, Zeros(4) + s + Zeros(8)), Zeros(8) + x + Zeros(2))
  {
    hide Xor;
    var r, t := Zeros(4) + s + Zeros(8), Zeros(8) + x + Zeros(2);
    forall k | 0 <= k < 16
      ensures MixIv(b, s, x)[k] == XorByte(XorByte(b[k], r[k]), t[k])
    {
      XorZero(b[k]);
      XorZero(XorByte(b[k], r[k]));
    }
  }

  /** Section 4.1.1 of RFC 3711, read as integers:
      `IV = (k_s * 2^16) XOR (SSRC * 2^64) XOR (i * 2^16)`; of an oversized salt the
      first 14 bytes are used. */
  lemma IvMatchesRfc3711(salt: seq<byte>, ssrc: u32, roc: u32, sn: u16)
    ensures BeVal(RtpIv(salt, ssrc, roc, sn))
         == Xor(Xor(BeVal(if |salt| <= 14 then salt else salt[..14]) * 0x1_0000, ssrc * 0x1_0000_0000_0000_0000),
                (roc * 0x1_0000 + sn) * 0x1_0000)
  {
    hide Xor;
    var b, s, x := IvBase(salt), Be32(ssrc), Be48(roc * 0x1_0000 + sn);
    MixedValue(b, s, x);
    BeValPlaced(14 - |UsedSalt(salt)|, UsedSalt(salt), 2);
    BeValBe32(ssrc);
    BeVal48(roc * 0x1_0000 + sn);
    Powers();
  }

  lemma MixedValue(b: seq<byte>, s: seq<byte>, x: seq<byte>)
    requires |b| == 16 && |s| == 4 && |x| == 6
    ensures BeVal(MixIv(b, s, x))
         == Xor(Xor(BeVal(b), BeVal(s) * 0x1_0000_0000_0000_0000), BeVal(x) * 0x1_0000)
  {
    hide Xor;
    var r, t := Zeros(4) + s + Zeros(8), Zeros(8) + x + Zeros(2);
    MixIsXorOfThree(b, s, x);
    BeValXor(b, r);
    BeValXor(XorSeq(b, r), t);
    BeValPlaced(4, s, 8);
    BeValPlaced(8, x, 2);
    Powers();
  }

  // ----- counter mode -----

  /** The `j`-th 128-bit counter block started from `iv`. */
  function CounterBlock(iv: seq<byte>, j: nat): (b: nat) { (BeVal(iv) + j) % BLOCK_SPACE }

  /** The 112-bit value in front of the two zero bytes of the IV. */
  function IvHigh(salt: seq<byte>, ssrc: u32, i: nat): (h: nat) {
    Xor(Xor(BeVal(UsedSalt(salt)), ssrc * 0x1_0000_0000_0000), i)
  }

  lemma XorOfShifted(k: nat, s: nat, i: nat)
    ensures Xor(Xor(k * 0x1_0000, s * 0x1_0000), i * 0x1_0000) == Xor(Xor(k, s), i) * 0x1_0000
  {
    hide Xor;
    XorShift16(k, s);
    XorShift16(Xor(k, s), i);
  }

  lemma IvIsShifted(salt: seq<byte>, ssrc: u32, roc: u32, sn: u16)
    ensures BeVal(RtpIv(salt, ssrc, roc, sn)) == IvHigh(salt, ssrc, roc * 0x1_0000 + sn) * 0x1_0000
  {
    hide Xor;
    IvMatchesRfc3711(salt, ssrc, roc, sn);
    XorOfShifted(BeVal(UsedSalt(salt)), ssrc * 0x1_0000_0000_0000, roc * 0x1_0000 + sn);
  }

  lemma BlockFits(v: nat, h: nat, j: nat)
    requires v == h * 0x1_0000 && v < BLOCK_SPACE && j < 0x1_0000
    ensures (v + j) % BLOCK_SPACE == h * 0x1_0000 + j
  {}

  /** Up to 2^16 blocks fit into the two zero bytes without a carry. */
  lemma BlockIsShifted(salt: seq<byte>, ssrc: u32, roc: u32, sn: u16, j: nat)
    requires j < 0x1_0000
    ensures CounterBlock(RtpIv(salt, ssrc, roc, sn), j) == IvHigh(salt, ssrc, roc * 0x1_0000 + sn) * 0x1_0000 + j
  {
    hide Xor;
    var iv := RtpIv(salt, ssrc, roc, sn);
    IvIsShifted(salt, ssrc, roc, sn);
    BeValBound(iv);
    Powers();
    BlockFits(BeVal(iv), IvHigh(salt, ssrc, roc * 0x1_0000 + sn), j);
  }

  /** Two counter blocks of one stream, each at most 2^16 blocks into its packet,
      coincide only for the same packet index and the same position. */
  lemma CounterBlockInjective(salt: seq<byte>, ssrc: u32, roc: u32, sn: u16, j: nat, roc': u32, sn': u16, j': nat)
    requires j < 0x1_0000 && j' < 0x1_0000
    requires CounterBlock(RtpIv(salt, ssrc, roc, sn), j) == CounterBlock(RtpIv(salt, ssrc, roc', sn'), j')
    ensures roc == roc' && sn == sn' && j == j'
  {
    hide Xor;
    BlockIsShifted(salt, ssrc, roc, sn, j);
    BlockIsShifted(salt, ssrc, roc', sn', j');
    var k := Xor(BeVal(UsedSalt(salt)), ssrc * 0x1_0000_0000_0000);
    XorCommutes(k, roc * 0x1_0000 + sn);
    XorCommutes(k, roc' * 0x1_0000 + sn');
    XorInjective(roc * 0x1_0000 + sn, roc' * 0x1_0000 + sn', k);
  }

  function KeystreamByte(c: Crypto, keys: Keys, iv: seq<byte>, p: nat): (b: byte) {
    c.aes(keys.cipherKey, CounterBlock(iv, p / 16), p % 16)
  }

  function CryptPayload(c: Crypto, keys: Keys, ssrc: u32, sn: u16, roc: u32, payload: seq<byte>): (out: seq<byte>)
    ensures |out| == |payload|
  {
    var iv := RtpIv(keys.salt, ssrc, roc, sn);
    seq(|payload|, p requires 0 <= p < |payload| => XorByte(payload[p], KeystreamByte(c, keys, iv, p)))
  }

  /** Encryption under one (key, SSRC, index) undoes itself. */
  lemma CryptIsInvolution(c: Crypto, keys: Keys, ssrc: u32, sn: u16, roc: u32, payload: seq<byte>)
    ensures CryptPayload(c, keys, ssrc, sn, roc, CryptPayload(c, keys, ssrc, sn, roc, payload)) == payload
  {
    var iv := RtpIv(keys.salt, ssrc, roc, sn);
    var ct := CryptPayload(c, keys, ssrc, sn, roc, payload);
    forall p | 0 <= p < |payload|
      ensures CryptPayload(c, keys, ssrc, sn, roc, ct)[p] == payload[p]
    {
      XorCancels(payload[p], KeystreamByte(c, keys, iv, p));
    }
  }

  // ----- message integrity -----

  function TagByte(c: Crypto, keys: Keys, body: seq<byte>, roc: u32, i: nat): (b: byte) {
    c.hmac(keys.authKey, TagInput(body, roc), i)
  }

  /** What the tag covers: the packet, then the counter. */
  function TagInput(body: seq<byte>, roc: u32): (m: seq<byte>) { body + Be32(roc) }

  /** The authenticated bytes determine both the packet and the counter. */
  lemma TagInputInjective(body: seq<byte>, roc: u32, body': seq<byte>, roc': u32)
    requires TagInput(body, roc) == TagInput(body', roc')
    ensures body == body' && roc == roc'
  {
    hide Be32;
    var m, n := TagInput(body, roc), |body|;
    assert m[..n] == body && m[..n] == body' && m[n..] == Be32(roc) && m[n..] == Be32(roc');
    Be32RoundTrip(roc);
    Be32RoundTrip(roc');
  }

  /** The first four bytes of HMAC over the packet and the big-endian ROC. */
  function WarpTag(c: Crypto, keys: Keys, body: seq<byte>, roc: u32): (tag: seq<byte>)
    ensures |tag| == TAG_LEN
  {
    seq(TAG_LEN, (i: nat) => TagByte(c, keys, body, roc, i))
  }
}
