/** STUN messages: attribute encoding, the request encoder with
    MESSAGE-INTEGRITY and FINGERPRINT, and the error-code scan. */
module Stun {
  import opened Bytes
  import opened Crc
  import opened Srtp

  const MAGIC: u32 := 0x2112_a442
  const FINGERPRINT_XOR: u32 := 0x5354_554e
  const ATTR_MESSAGE_INTEGRITY: u16 := 0x0008
  const ATTR_ERROR_CODE: u16 := 0x0009
  const ATTR_FINGERPRINT: u16 := 0x8028
  const MSG_ALLOCATE_ERROR: u16 := 0x0113
  const MSG_BINDING_ERROR: u16 := 0x0111

  type Tx = s: seq<byte> | |s| == 12 witness [0, 0, 0, 0, 0, 0, 0, 0, 0, 0, 0, 0]

  datatype Attribute = Attribute(kind: u16, value: seq<byte>)

  function Pad4(n: nat): (p: nat) { (4 - n % 4) % 4 }

  function AttrBytes(a: Attribute): (s: seq<byte>)
    ensures |s| == 4 + |a.value| + Pad4(|a.value|)
  {
    Be16(a.kind) + Be16(|a.value| % 0x1_0000) + a.value + Zeros(Pad4(|a.value|))
  }

  function AttrsBytes(attrs: seq<Attribute>): (s: seq<byte>) {
    if |attrs| == 0 then [] else AttrBytes(attrs[0]) + AttrsBytes(attrs[1..])
  }

  lemma PadAligns(n: nat)
    ensures (n + Pad4(n)) % 4 == 0
  {}

  lemma SumAligned(a: nat, b: nat)
    requires a % 4 == 0 && b % 4 == 0
    ensures (4 + a + b) % 4 == 0
  {}

  lemma {:induction false} AttrsAligned(attrs: seq<Attribute>)
    ensures |AttrsBytes(attrs)| % 4 == 0
  {
    if |attrs| > 0 {
      hide Pad4;
      AttrsAligned(attrs[1..]);
      PadAligns(|attrs[0].value|);
      SumAligned(|attrs[0].value| + Pad4(|attrs[0].value|), |AttrsBytes(attrs[1..])|);
    }
  }

  function Header(kind: u16, len: u16, tx: Tx): (s: seq<byte>)
    ensures |s| == 20
  {
    Be16(kind) + Be16(len) + Be32(MAGIC) + tx
  }

  function Hmac20(c: Crypto, key: seq<byte>, message: seq<byte>): (s: seq<byte>)
    ensures |s| == 20
  {
    seq(20, (i: nat) => HmacByte(c, key, message, i))
  }

  function HmacByte(c: Crypto, key: seq<byte>, message: seq<byte>, i: nat): (b: byte) { c.hmac(key, message, i) }

  function FingerprintOf(input: seq<byte>): (s: seq<byte>)
    ensures |s| == 4
  {
    Be32(Xor32(Crc32(input), FINGERPRINT_XOR))
  }

  function WithIntegrity(c: Crypto, kind: u16, tx: Tx, attrs: seq<byte>, key: Option<seq<byte>>): (body: seq<byte>)
    ensures |body| == |attrs| + (if key.Some? then 24 else 0)
  {
    match key
    case None => attrs
    case Some(k) =>
      var mac := Hmac20(c, k, Header(kind, (|attrs| + 24) % 0x1_0000, tx) + attrs);
      attrs + AttrBytes(Attribute(ATTR_MESSAGE_INTEGRITY, mac))
  }

  function WithFingerprint(kind: u16, tx: Tx, body: seq<byte>): (r: seq<byte>)
    ensures |r| == |body| + 8
  {
    var fp := FingerprintOf(Header(kind, (|body| + 8) % 0x1_0000, tx) + body);
    body + AttrBytes(Attribute(ATTR_FINGERPRINT, fp))
  }

  function EncodeRequest(c: Crypto, kind: u16, tx: Tx, attrs: seq<byte>, key: Option<seq<byte>>, fingerprint: bool)
    : (message: seq<byte>)
    ensures |message| >= 20
  {
    var body := WithIntegrity(c, kind, tx, attrs, key);
    var full := if fingerprint then WithFingerprint(kind, tx, body) else body;
    Header(kind, |full| % 0x1_0000, tx) + full
  }

  // ----- what a receiver checks -----

  function DeclaredLength(data: seq<byte>): (n: u16)
    requires |data| >= 4
  {
    U16(data[2], data[3])
  }

  predicate IsComplete(data: seq<byte>) {
    && |data| >= 20 && data[0] / 0x40 == 0 && data[4..8] == Be32(MAGIC)
    && DeclaredLength(data) % 4 == 0 && |data| >= 20 + DeclaredLength(data)
  }

  function MessageType(data: seq<byte>): (t: u16)
    requires |data| >= 2
  {
    U16(data[0] % 0x40, data[1])
  }

  /** Section 15.5 of RFC 5389: the last attribute is FINGERPRINT over all bytes
      before it. */
  predicate FingerprintOk(message: seq<byte>) {
    var n := |message| - 8;
    n >= 20 && message[n..n + 4] == [0x80, 0x28, 0, 4]
    && BeVal(message[n + 4..]) == Xor(Crc32(message[..n]), 0x5354_554e)
  }

  /** The message up to offset `at`, its length field set to end with the 24-byte
      MESSAGE-INTEGRITY attribute that starts there. */
  function IntegrityInput(message: seq<byte>, at: nat): (s: seq<byte>)
    requires 20 <= at <= |message| && at + 4 < 0x1_0000
  {
    message[..2] + Be16(at + 4) + message[4..at]
  }

  predicate IsHmac(c: Crypto, key: seq<byte>, input: seq<byte>, mac: seq<byte>) {
    |mac| == 20 && forall i :: 0 <= i < 20 ==> mac[i] == c.hmac(key, input, i)
  }

  /** Section 15.4 of RFC 5389. */
  predicate IntegrityOk(c: Crypto, key: seq<byte>, message: seq<byte>, at: nat) {
    && 20 <= at && at + 24 <= |message| && at + 4 < 0x1_0000
    && message[at..at + 4] == [0, 8, 0, 20]
    && IsHmac(c, key, IntegrityInput(message, at), message[at + 4..at + 24])
  }

  // ----- encoded requests -----

  lemma HeaderFields(kind: u16, len: u16, tx: Tx, body: seq<byte>)
    ensures var m := Header(kind, len, tx) + body;
            && m[..2] == Be16(kind) && DeclaredLength(m) == len && m[4..8] == Be32(MAGIC)
            && m[0] == kind / 0x100 && m[1] == kind % 0x100 && m[20..] == body
            && m[2..4] == Be16(len) && m[8..20] == tx
  {
    var m := Header(kind, len, tx) + body;
    assert m[2..4] == Be16(len);
    assert m[4..8] == Be32(MAGIC) by { hide Be32, Be16; }
    ReadBack16(m, 2, len);
  }

  /** Where the fields of a request stand: type, length of the rest, magic cookie and
      transaction (section 6 of RFC 5389), then the attributes as given. */
  lemma RequestLayout(c: Crypto, kind: u16, tx: Tx, attrs: seq<byte>, key: Option<seq<byte>>, fingerprint: bool)
    ensures var m := EncodeRequest(c, kind, tx, attrs, key, fingerprint);
            && |m| >= 20 + |attrs|
            && BeVal(m[..2]) == kind && BeVal(m[2..4]) == (|m| - 20) % 0x1_0000
            && m[4..8] == [0x21, 0x12, 0xa4, 0x42] && m[8..20] == tx && m[20..20 + |attrs|] == attrs
            && (key.Some? ==> |m| >= 44 + |attrs| && m[20 + |attrs|..24 + |attrs|] == [0, 8, 0, 20])
  {
    hide Be32, Be16, BeVal, Header, WithIntegrity, WithFingerprint;
    var body := WithIntegrity(c, kind, tx, attrs, key);
    var full := if fingerprint then WithFingerprint(kind, tx, body) else body;
    var m := EncodeRequest(c, kind, tx, attrs, key, fingerprint);
    BodyStarts(c, kind, tx, attrs, key, fingerprint);
    AttrMarks();
    BeValBe16(kind);
    BeValBe16((|m| - 20) % 0x1_0000);
    HeaderFields(kind, |full| % 0x1_0000, tx, full);
    assert m[20..20 + |attrs|] == full[..|attrs|];
    assert key.Some? ==> m[20 + |attrs|..24 + |attrs|] == full[|attrs|..|attrs| + 4];
  }

  lemma BodyStarts(c: Crypto, kind: u16, tx: Tx, attrs: seq<byte>, key: Option<seq<byte>>, fingerprint: bool)
    ensures var body := WithIntegrity(c, kind, tx, attrs, key);
            var full := if fingerprint then WithFingerprint(kind, tx, body) else body;
            && |full| >= |attrs| && full[..|attrs|] == attrs
            && (key.Some? ==> |full| >= |attrs| + 24 && full[|attrs|..|attrs| + 4] == [0, 8, 0, 20])
  {
    hide AttrBytes, Hmac20, FingerprintOf, Header;
    var body := WithIntegrity(c, kind, tx, attrs, key);
    var full := if fingerprint then WithFingerprint(kind, tx, body) else body;
    var i, f := body[|attrs|..], full[|body|..];
    assert body == attrs + i && full == attrs + i + f;
    if key.Some? {
      var mac := Hmac20(c, key.value, Header(kind, (|attrs| + 24) % 0x1_0000, tx) + attrs);
      assert i == AttrBytes(Attribute(ATTR_MESSAGE_INTEGRITY, mac));
      IntegrityMark(mac);
      assert full[|attrs|..|attrs| + 4] == i[..4];
    }
  }

  lemma IntegrityMark(mac: seq<byte>)
    requires |mac| == 20
    ensures AttrBytes(Attribute(ATTR_MESSAGE_INTEGRITY, mac))[..4] == [0, 8, 0, 20]
  {
    AttrMarks();
  }

  /** A datagram is a complete message exactly if it starts with a header, of a type
      with its two top bits clear, whose length is a multiple of four and there. */
  lemma CompleteIsHeader(data: seq<byte>)
    ensures IsComplete(data) <==>
            && |data| >= 20 && data[0] < 0x40 && BeVal(data[2..4]) % 4 == 0 && 20 + BeVal(data[2..4]) <= |data|
            && data[4..8] == [0x21, 0x12, 0xa4, 0x42]
  {
    hide BeVal, Be32;
    AttrMarks();
    if |data| >= 20 {
      assert data[2..4] == [data[2], data[3]];
      BeVal2(data[2], data[3]);
    }
  }

  function BodyLength(attrs: seq<byte>, key: Option<seq<byte>>, fingerprint: bool): (n: nat) {
    |attrs| + (if key.Some? then 24 else 0) + (if fingerprint then 8 else 0)
  }

  /** An encoded request passes the completeness test exactly if its type has the
      two top bits clear and its attributes are padded; its length field tells the
      true length exactly if the body fits 16 bits. */
  lemma EncodedIsComplete(c: Crypto, kind: u16, tx: Tx, attrs: seq<byte>, key: Option<seq<byte>>, fingerprint: bool)
    ensures var m := EncodeRequest(c, kind, tx, attrs, key, fingerprint);
            && |m| == 20 + BodyLength(attrs, key, fingerprint)
            && (IsComplete(m) <==> kind < 0x4000 && |attrs| % 4 == 0)
            && (DeclaredLength(m) == |m| - 20 <==> |m| - 20 < 0x1_0000)
            && MessageType(m) == kind % 0x4000
  {
    hide Header, WithIntegrity, WithFingerprint;
    var body := WithIntegrity(c, kind, tx, attrs, key);
    var full := if fingerprint then WithFingerprint(kind, tx, body) else body;
    HeaderFields(kind, |full| % 0x1_0000, tx, full);
    CompleteIff(EncodeRequest(c, kind, tx, attrs, key, fingerprint), kind, |full|);
    MoreAligned(|attrs|);
  }

  lemma MoreAligned(n: nat)
    ensures (n + 24) % 4 == (n + 8) % 4 == (n + 32) % 4 == n % 4
  {}

  /** The receiver's tests on a message that begins with a 20-byte header. */
  lemma CompleteIff(m: seq<byte>, kind: u16, n: nat)
    requires |m| == 20 + n && m[0] == kind / 0x100 && m[1] == kind % 0x100
    requires m[4..8] == Be32(MAGIC) && DeclaredLength(m) == n % 0x1_0000
    ensures IsComplete(m) <==> kind < 0x4000 && n % 4 == 0
    ensures DeclaredLength(m) == n <==> n < 0x1_0000
    ensures MessageType(m) == kind % 0x4000
  {
    hide U16, Be32, DeclaredLength;
    LengthBits(n);
    TypeBits(kind);
  }

  lemma TypeBits(kind: u16)
    ensures kind / 0x100 / 0x40 == 0 <==> kind < 0x4000
    ensures U16(kind / 0x100 % 0x40, kind % 0x100) == kind % 0x4000
  {}

  lemma LengthBits(n: nat)
    ensures n % 0x1_0000 % 4 == n % 4
    ensures n % 0x1_0000 == n <==> n < 0x1_0000
    ensures n % 0x1_0000 <= n
  {}

  /** The CRC of a fingerprinted request was taken over the very message it ends. */
  lemma FingerprintVerifies(c: Crypto, kind: u16, tx: Tx, attrs: seq<byte>, key: Option<seq<byte>>)
    ensures FingerprintOk(EncodeRequest(c, kind, tx, attrs, key, true))
  {
    hide Header, WithIntegrity, FingerprintOf, Be16, Crc32, Xor, BeVal;
    var body := WithIntegrity(c, kind, tx, attrs, key);
    var head := Header(kind, (|body| + 8) % 0x1_0000, tx);
    FingerprintLast(head + body, EncodeRequest(c, kind, tx, attrs, key, true)) by {
      var fp := FingerprintOf(head + body);
      var mark := Be16(ATTR_FINGERPRINT) + Be16(4);
      assert body + (mark + fp + Zeros(0)) == body + (mark + fp);
      assert head + (body + (Be16(ATTR_FINGERPRINT) + Be16(4) + fp))
          == head + body + (Be16(ATTR_FINGERPRINT) + Be16(4) + fp);
    }
  }

  lemma FingerprintLast(input: seq<byte>, m: seq<byte>)
    requires |input| >= 20 && m == input + (Be16(ATTR_FINGERPRINT) + Be16(4) + FingerprintOf(input))
    ensures FingerprintOk(m)
  {
    hide FingerprintOf, Be16, Crc32, Xor, BeVal;
    FingerprintValue(input);
    AttrMarks();
    var n := |m| - 8;
    assert m[..n] == input && m[n..n + 4] == Be16(ATTR_FINGERPRINT) + Be16(4) && m[n + 4..] == FingerprintOf(input);
  }

  lemma FingerprintValue(input: seq<byte>)
    ensures BeVal(FingerprintOf(input)) == Xor(Crc32(input), 0x5354_554e)
  {
    hide Xor, Crc32, Be32, BeVal;
    BeValBe32(Xor32(Crc32(input), FINGERPRINT_XOR));
  }

  lemma AttrMarks()
    ensures Be16(ATTR_FINGERPRINT) + Be16(4) == [0x80, 0x28, 0, 4]
    ensures Be16(ATTR_MESSAGE_INTEGRITY) + Be16(20) == [0, 8, 0, 20]
    ensures Be32(MAGIC) == [0x21, 0x12, 0xa4, 0x42]
  {}

  /** The HMAC of a request covers the final message up to MESSAGE-INTEGRITY, with
      the length field ending there, whether or not FINGERPRINT follows. */
  lemma IntegrityVerifies(c: Crypto, kind: u16, tx: Tx, attrs: seq<byte>, key: seq<byte>, fingerprint: bool)
    requires |attrs| + 24 < 0x1_0000
    ensures IntegrityOk(c, key, EncodeRequest(c, kind, tx, attrs, Some(key), fingerprint), 20 + |attrs|)
  {
    hide Hmac20, Be16, Be32, Header, FingerprintOf, IsHmac;
    AttrMarks();
    HmacBytes(c, key, Header(kind, |attrs| + 24, tx) + attrs);
    var mac := Hmac20(c, key, Header(kind, |attrs| + 24, tx) + attrs);
    var body := WithIntegrity(c, kind, tx, attrs, Some(key));
    var mark := Be16(ATTR_MESSAGE_INTEGRITY) + Be16(20);
    assert body == attrs + mark + mac;
    var full := if fingerprint then WithFingerprint(kind, tx, body) else body;
    assert full == attrs + mark + mac + full[|body|..];
    var head := Header(kind, |full| % 0x1_0000, tx);
    IntegrityLayout(head, attrs, mark, mac, full[|body|..]);
    assert IntegrityInput(head + full, 20 + |attrs|) == Header(kind, |attrs| + 24, tx) + attrs by {
      HeaderSplit(kind, |full| % 0x1_0000, |attrs| + 24, tx);
    }
  }

  lemma HmacBytes(c: Crypto, key: seq<byte>, message: seq<byte>)
    ensures IsHmac(c, key, message, Hmac20(c, key, message))
  {}

  /** Messages of one type and transaction differ in the length field only. */
  lemma HeaderSplit(kind: u16, len: u16, len': u16, tx: Tx)
    ensures Header(kind, len, tx)[..2] + Be16(len') + Header(kind, len, tx)[4..] == Header(kind, len', tx)
  {
    hide Be16, Be32;
  }

  lemma IntegrityLayout(head: seq<byte>, attrs: seq<byte>, mark: seq<byte>, mac: seq<byte>, tail: seq<byte>)
    requires |head| == 20 && |mark| == 4 && |mac| == 20
    ensures var m := head + (attrs + mark + mac + tail);
            var at := 20 + |attrs|;
            && m[at..at + 4] == mark && m[at + 4..at + 24] == mac
            && m[..2] == head[..2] && m[4..at] == head[4..] + attrs
  {}

  /** A message whose fingerprint checks out stops doing so after any burst of
      errors of at most 32 bits in front of the fingerprint. */
  lemma BurstBreaksFingerprint(m: seq<byte>, m': seq<byte>, p: nat, len: nat)
    requires FingerprintOk(m) && |m'| == |m| && m != m'
    requires len <= 32 && p + len <= 8 * (|m| - 8)
    requires Bits(m)[..p] == Bits(m')[..p] && Bits(m)[p + len..] == Bits(m')[p + len..]
    ensures !FingerprintOk(m')
  {
    hide Bits, Crc32, Xor, BeVal;
    var n := |m| - 8;
    var a, b := m[..n], m'[..n];
    assert m == a + m[n..] && m' == b + m'[n..];
    BitsConcat(a, m[n..]);
    BitsConcat(b, m'[n..]);
    var s, t := Bits(m), Bits(m');
    assert s[8 * n..] == s[p + len..][8 * n - p - len..] && t[8 * n..] == t[p + len..][8 * n - p - len..];
    BitsInjective(m[n..], m'[n..]);
    assert Bits(a)[..p] == s[..p] && Bits(b)[..p] == t[..p];
    assert Bits(a)[p + len..] == s[p + len..][..8 * n - p - len];
    assert Bits(b)[p + len..] == t[p + len..][..8 * n - p - len];
    CrcDetectsBurst(a, b, p, len);
    if FingerprintOk(m') {
      assert m[n..][4..] == m[n + 4..] && m'[n..][4..] == m'[n + 4..];
      XorInjective(Crc32(a), Crc32(b), 0x5354_554e);
      assert false;
    }
  }

  // ----- the error-code scan -----

  function CodeOf(hundreds: byte, number: byte): (code: u16) { hundreds as int * 100 + number as int }

  function Walk(data: seq<byte>, off: nat, end: nat): (r: Option<u16>)
    requires end <= |data|
    decreases end - off
  {
    if off + 4 > end then None
    else
      var kind, len := U16(data[off], data[off + 1]), U16(data[off + 2], data[off + 3]);
      if kind == ATTR_ERROR_CODE && len >= 4 && off + 8 <= end then Some(CodeOf(data[off + 6], data[off + 7]))
      else Walk(data, off + 4 + len + Pad4(len), end)
  }

  function ErrorCode(data: seq<byte>): (r: Option<u16>) {
    if !IsComplete(data) then None
    else if MessageType(data) != MSG_ALLOCATE_ERROR && MessageType(data) != MSG_BINDING_ERROR then None
    else Walk(data, 20, 20 + DeclaredLength(data))
  }

  method ParseErrorCode(data: seq<byte>) returns (r: Option<u16>)
    ensures r == ErrorCode(data)
  {
    if !IsComplete(data) {
      return None;
    }
    hide U16, IsComplete, CodeOf;
    var t := MessageType(data);
    if t != MSG_ALLOCATE_ERROR && t != MSG_BINDING_ERROR {
      return None;
    }
    var end := if 20 + DeclaredLength(data) < |data| then 20 + DeclaredLength(data) else |data|;
    var off := 20;
    while off + 4 <= end
      invariant Walk(data, off, end) == Walk(data, 20, end)
      decreases end - off
    {
      var kind, len := U16(data[off], data[off + 1]), U16(data[off + 2], data[off + 3]);
      if kind == ATTR_ERROR_CODE && len >= 4 && off + 8 <= end {
        return Some(CodeOf(data[off + 6], data[off + 7]));
      }
      off := off + 4 + len + Pad4(len);
    }
    return None;
  }

  /** Section 15.6 of RFC 5389: class times 100 plus number, of the first
      ERROR-CODE attribute long enough to hold them. */
  function FirstErrorCode(attrs: seq<Attribute>): (r: Option<u16>) {
    if |attrs| == 0 then None
    else if attrs[0].kind == 9 && |attrs[0].value| >= 4 then
      Some(100 * attrs[0].value[2] as int + attrs[0].value[3] as int)
    else FirstErrorCode(attrs[1..])
  }

  lemma AttrFields(pre: seq<byte>, a: Attribute, rest: seq<byte>)
    requires |a.value| < 0x1_0000
    ensures var d := pre + AttrBytes(a) + rest;
            var off := |pre|;
            && U16(d[off], d[off + 1]) == a.kind && U16(d[off + 2], d[off + 3]) == |a.value|
            && d[off + 4..off + 4 + |a.value|] == a.value
  {
    hide Be16;
    var d, off := pre + AttrBytes(a) + rest, |pre|;
    assert d[off..off + |AttrBytes(a)|] == AttrBytes(a);
    assert AttrBytes(a)[..2] == Be16(a.kind) && AttrBytes(a)[2..4] == Be16(|a.value|);
    assert d[off..off + 2] == AttrBytes(a)[..2] && d[off + 2..off + 4] == AttrBytes(a)[2..4];
    assert AttrBytes(a)[4..4 + |a.value|] == a.value;
    ReadBack16(d, off, a.kind);
    ReadBack16(d, off + 2, |a.value|);
  }

  /** From any attribute boundary, the scan reads the attributes that follow. */
  lemma {:induction false} WalkFindsFirst(pre: seq<byte>, attrs: seq<Attribute>, rest: seq<byte>)
    requires |AttrsBytes(attrs)| < 0x1_0000
    ensures Walk(pre + AttrsBytes(attrs) + rest, |pre|, |pre| + |AttrsBytes(attrs)|) == FirstErrorCode(attrs)
    decreases |attrs|
  {
    hide AttrBytes, U16;
    if |attrs| > 0 {
      var a, more := attrs[0], attrs[1..];
      var d := pre + AttrsBytes(attrs) + rest;
      assert d == pre + AttrBytes(a) + (AttrsBytes(more) + rest);
      assert d == (pre + AttrBytes(a)) + AttrsBytes(more) + rest;
      AttrFields(pre, a, AttrsBytes(more) + rest);
      WalkFindsFirst(pre + AttrBytes(a), more, rest);
      if a.kind == ATTR_ERROR_CODE && |a.value| >= 4 {
        assert d[|pre| + 6] == d[|pre| + 4..|pre| + 4 + |a.value|][2];
        assert d[|pre| + 7] == d[|pre| + 4..|pre| + 4 + |a.value|][3];
      }
    }
  }

  /** A response that carries any attributes at all, followed in its datagram by any
      bytes, is read as its first usable ERROR-CODE if it is an Allocate error (0x0113)
      or a Binding error (0x0111), and as no error otherwise. */
  lemma ErrorResponseRead(kind: u16, tx: Tx, attrs: seq<Attribute>, trailing: seq<byte>)
    requires |AttrsBytes(attrs)| < 0x1_0000
    ensures ErrorCode(Header(kind, |AttrsBytes(attrs)|, tx) + AttrsBytes(attrs) + trailing)
         == if kind == 0x0113 || kind == 0x0111 then FirstErrorCode(attrs) else None
  {
    hide Header, AttrBytes, Walk, AttrsBytes;
    var body := AttrsBytes(attrs);
    var head := Header(kind, |body|, tx);
    assert head + body + trailing == head + (body + trailing);
    HeaderFields(kind, |body|, tx, body + trailing);
    AttrsAligned(attrs);
    WalkFindsFirst(head, attrs, trailing);
    TypeBits(kind);
  }

  /** Class 4 and number 38 spell 438. */
  lemma StaleNonceIs438(tx: Tx)
    ensures ErrorCode(Header(0x0113, 8, tx) + AttrsBytes([Attribute(9, [0, 0, 4, 38])]) + []) == Some(438)
  {
    var attrs := [Attribute(9, [0, 0, 4, 38])];
    assert attrs[1..] == [] && |AttrsBytes(attrs)| == 8;
    ErrorResponseRead(0x0113, tx, attrs, []);
  }
}
