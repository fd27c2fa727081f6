/** The `<relay>` block: token tables, endpoints grouped from `<te2>` entries, and
    the choice of the endpoint to dial. */
module Relay {
  import opened Bytes
  import opened Common
  import opened Stanza

  const WEB_CLIENT_RELAY_PORT: u16 := 3480
  const MAX_RELAY_TOKENS := 64

  datatype RelayAddress = RelayAddress(protocol: byte, ipv4: Option<string>, ipv6: Option<string>, port: u16)

  datatype Endpoint = Endpoint(
    relayId: u32, relayName: string, tokenId: u32, authTokenId: u32, isFna: bool,
    addresses: seq<RelayAddress>, rtt: Option<u32>)

  datatype RelayData = RelayData(
    relayKeyAscii: Option<seq<byte>>, uuid: Option<string>,
    relayTokens: seq<seq<byte>>, authTokens: seq<seq<byte>>, endpoints: seq<Endpoint>)

  // ----- token tables -----

  function Blank(n: nat): (s: seq<seq<byte>>)
    ensures |s| == n && forall i :: 0 <= i < n ==> s[i] == []
  {
    seq(n, i => [])
  }

  /** `tokens` with `bytes` at index `id`, padded with empty entries; an index past
      the cap is ignored. */
  function PutToken(tokens: seq<seq<byte>>, id: nat, bytes: seq<byte>): (r: seq<seq<byte>>) {
    if id >= MAX_RELAY_TOKENS then tokens
    else
      var padded := tokens + Blank(if |tokens| <= id then id + 1 - |tokens| else 0);
      padded[id := bytes]
  }

  /** The index a token is written to: its `id`, or the end of the table. */
  function ResolvedId(n: Node, tableSize: nat): (id: nat) {
    match Attr(n, "id")
    case None => tableSize
    case Some(s) => (match ParseUint(s, USIZE_MAX) case None => tableSize case Some(v) => v)
  }

  function TokensOf(ns: seq<Node>): (tokens: seq<seq<byte>>) {
    if |ns| == 0 then []
    else
      var k := |ns| - 1;
      var before := TokensOf(ns[..k]);
      match NodeBytes(ns[k])
      case None => before
      case Some(b) => PutToken(before, ResolvedId(ns[k], |before|), b)
  }

  method PadTo(tokens: seq<seq<byte>>, id: nat) returns (r: seq<seq<byte>>)
    ensures r == tokens + Blank(if |tokens| <= id then id + 1 - |tokens| else 0)
  {
    r := tokens;
    while |r| <= id
      invariant |tokens| <= |r| && (|r| <= id + 1 || r == tokens)
      invariant r == tokens + Blank(|r| - |tokens|)
    {
      r := r + [[]];
    }
  }

  method ParseIndexedTokens(relay: Node, tag: string) returns (tokens: seq<seq<byte>>)
    ensures tokens == TokensOf(Children(relay, tag))
  {
    hide ResolvedId;
    var ns := Children(relay, tag);
    tokens := [];
    for k := 0 to |ns|
      invariant tokens == TokensOf(ns[..k])
    {
      assert ns[..k + 1][..k] == ns[..k];
      var content := NodeBytes(ns[k]);
      if content.None? {
        continue;
      }
      var id := ResolvedId(ns[k], |tokens|);
      if id >= MAX_RELAY_TOKENS {
        continue;
      }
      tokens := PadTo(tokens, id);
      tokens := tokens[id := content.value];
    }
    assert ns[..|ns|] == ns;
  }

  /** Where a token goes in a table of `size` entries: to the index its `id` spells, or
      to the end if there is none to read. */
  function Target(n: Node, size: nat): (id: nat) {
    if "id" in n.attrs && ParseUint(n.attrs["id"], 0xffff_ffff_ffff_ffff).Some?
    then ParseUint(n.attrs["id"], 0xffff_ffff_ffff_ffff).value else size
  }

  lemma ResolvedIsTarget(n: Node, size: nat)
    ensures ResolvedId(n, size) == Target(n, size)
  {}

  /** The bytes last written to index `i`, empty if there were none. */
  function LastWrite(ns: seq<Node>, i: nat): (b: seq<byte>) {
    if |ns| == 0 then []
    else
      var k := |ns| - 1;
      match NodeBytes(ns[k])
      case None => LastWrite(ns[..k], i)
      case Some(b) => if Target(ns[k], |TokensOf(ns[..k])|) == i then b else LastWrite(ns[..k], i)
  }

  /** The table has at most 64 entries and each holds the last write to it; every
      index below the cap that is past the end was never written. */
  lemma {:induction false} TokenTable(ns: seq<Node>)
    ensures |TokensOf(ns)| <= 64
    ensures forall i :: 0 <= i < |TokensOf(ns)| ==> TokensOf(ns)[i] == LastWrite(ns, i)
    ensures forall i :: |TokensOf(ns)| <= i < 64 ==> LastWrite(ns, i) == []
  {
    hide ResolvedId, Target;
    if |ns| > 0 {
      var k := |ns| - 1;
      TokenTable(ns[..k]);
      ResolvedIsTarget(ns[k], |TokensOf(ns[..k])|);
    }
  }

  function PlainTokens(tag: string, tokens: seq<seq<byte>>): (ns: seq<Node>)
    ensures |ns| == |tokens|
  {
    seq(|tokens|, k requires 0 <= k < |tokens| => Node(tag, map[], Data(tokens[k])))
  }

  /** Tokens without ids fill the table in order, and ids spell the indices. */
  lemma {:induction false} TokensInOrder(tag: string, tokens: seq<seq<byte>>)
    ensures TokensOf(PlainTokens(tag, tokens)) == tokens[..Least(64, |tokens|)]
  {
    hide ParseUint;
    if |tokens| > 0 {
      var k := |tokens| - 1;
      TokensInOrder(tag, tokens[..k]);
      assert PlainTokens(tag, tokens)[..k] == PlainTokens(tag, tokens[..k]);
      assert tokens[..k][..Least(64, k)] == tokens[..Least(64, k)];
    }
  }

  /** A token with an id below 64 ends up at that index, whatever came before it. */
  lemma TokenWithId(ns: seq<Node>, tag: string, id: nat, b: seq<byte>)
    requires id < 64
    ensures var tokens := TokensOf(ns + [Node(tag, map["id" := Decimal(id)], Data(b))]);
            && id < |tokens| && tokens[id] == b
            && |tokens| == (if |TokensOf(ns)| <= id then id + 1 else |TokensOf(ns)|)
  {
    hide ParseUint;
    DecimalRoundTrip(id, USIZE_MAX);
    var us := ns + [Node(tag, map["id" := Decimal(id)], Data(b))];
    assert us[..|ns|] == ns;
  }

  // ----- te2 entries -----

  function HexDigit(d: nat): (c: char)
    requires d < 16
  {
    if d < 10 then ('0' as int + d) as char else ('a' as int + d - 10) as char
  }

  function Hex(n: nat): (s: string) { if n < 16 then [HexDigit(n)] else Hex(n / 16) + [HexDigit(n % 16)] }

  function Ipv4Text(b: seq<byte>): (s: string)
    requires |b| == 4
  {
    Decimal(b[0]) + "." + Decimal(b[1]) + "." + Decimal(b[2]) + "." + Decimal(b[3])
  }

  function Ipv6Text(b: seq<byte>): (s: string)
    requires |b| >= 2 && |b| % 2 == 0
    decreases |b|
  {
    Hex(U16(b[0], b[1])) + (if |b| == 2 then "" else ":" + Ipv6Text(b[2..]))
  }

  function ParseAddress(b: seq<byte>, protocol: byte): (r: Option<RelayAddress>)
    ensures r.Some? <==> |b| == 6 || |b| == 18
  {
    if |b| == 6 then Some(RelayAddress(protocol, Some(Ipv4Text(b[..4])), None, U16(b[4], b[5])))
    else if |b| == 18 then Some(RelayAddress(protocol, None, Some(Ipv6Text(b[..16])), U16(b[16], b[17])))
    else None
  }

  datatype Te2 = Te2(
    relayId: u32, relayName: string, tokenId: u32, authTokenId: u32, isFna: bool, rtt: Option<u32>,
    address: RelayAddress)

  function Or0(o: Option<u32>): (n: u32) { match o case None => 0 case Some(v) => v }

  /** A `<te2>` entry, or nothing if its body is not an address. */
  function ParseTe2(n: Node): (r: Option<Te2>) {
    match NodeBytes(n)
    case None => None
    case Some(b) =>
      var protocol := Or0(U32Attr(n, "protocol")) % 0x100;
      match ParseAddress(b, protocol)
      case None => None
      case Some(a) =>
        Some(Te2(Or0(U32Attr(n, "relay_id")),
                 match Attr(n, "relay_name") case None => "" case Some(s) => s,
                 Or0(U32Attr(n, "token_id")), Or0(U32Attr(n, "auth_token_id")),
                 Attr(n, "is_fna") == Some("1"), U32Attr(n, "c2r_rtt"), a))
  }

  /** Only the body decides whether an entry counts: 6 bytes or 18. */
  lemma Te2ParsesIff(n: Node)
    ensures ParseTe2(n).Some? <==> NodeBytes(n).Some? && |NodeBytes(n).value| in {6, 18}
  {}

  /** A `<te2>` element with its attributes written out; the body is an address of
      either family and a port. */
  function Te2Node(
    id: u32, name: string, token: u32, auth: u32, fna: bool, rtt: u32, proto: byte, ip: seq<byte>, port: u16)
    : (n: Node)
  {
    Node("te2", map["relay_id" := Decimal(id), "relay_name" := name, "token_id" := Decimal(token),
                    "auth_token_id" := Decimal(auth), "is_fna" := if fna then "1" else "0",
                    "c2r_rtt" := Decimal(rtt), "protocol" := Decimal(proto)],
         Data(ip + Be16(port)))
  }

  lemma AttrReads(n: Node, name: string, v: u32)
    requires Attr(n, name) == Some(Decimal(v))
    ensures U32Attr(n, name) == Some(v)
  {
    DecimalRoundTrip(v, U32_MAX);
  }

  lemma Te2Attrs(
    id: u32, name: string, token: u32, auth: u32, fna: bool, rtt: u32, proto: byte, ip: seq<byte>, port: u16)
    ensures var n := Te2Node(id, name, token, auth, fna, rtt, proto, ip, port);
            && Attr(n, "relay_id") == Some(Decimal(id)) && Attr(n, "relay_name") == Some(name)
            && Attr(n, "token_id") == Some(Decimal(token)) && Attr(n, "auth_token_id") == Some(Decimal(auth))
            && Attr(n, "c2r_rtt") == Some(Decimal(rtt)) && Attr(n, "protocol") == Some(Decimal(proto))
            && (Attr(n, "is_fna") == Some("1") <==> fna) && NodeBytes(n) == Some(ip + Be16(port))
  {
    hide Decimal, Be16;
  }

  lemma AddressReads(ip: seq<byte>, port: u16, proto: byte)
    requires |ip| == 4 || |ip| == 16
    ensures ParseAddress(ip + Be16(port), proto)
         == Some(if |ip| == 4 then RelayAddress(proto, Some(Ipv4Text(ip)), None, port)
                 else RelayAddress(proto, None, Some(Ipv6Text(ip)), port))
  {
    hide Ipv4Text, Ipv6Text;
    Be16RoundTrip(port);
    var b := ip + Be16(port);
    assert b[..|ip|] == ip && b[|ip|] == Be16(port)[0] && b[|ip| + 1] == Be16(port)[1];
  }

  // ----- address texts -----

  lemma DecimalInjective(a: nat, b: nat)
    requires Decimal(a) == Decimal(b)
    ensures a == b
  {
    DecimalValue(a);
    DecimalValue(b);
  }

  lemma HexDigitInjective(a: nat, b: nat)
    requires a < 16 && b < 16 && HexDigit(a) == HexDigit(b)
    ensures a == b
  {}

  lemma {:induction false} HexLacksColon(n: nat)
    ensures |Hex(n)| > 0 && Lacks(Hex(n), ':')
  {
    if n >= 16 { HexLacksColon(n / 16); }
  }

  lemma {:induction false} HexInjective(a: nat, b: nat)
    requires Hex(a) == Hex(b)
    ensures a == b
  {
    hide HexDigit;
    HexLacksColon(a / 16);
    HexLacksColon(b / 16);
    assert Hex(a)[|Hex(a)| - 1] == HexDigit(a % 16) && Hex(b)[|Hex(b)| - 1] == HexDigit(b % 16);
    HexDigitInjective(a % 16, b % 16);
    if a >= 16 && b >= 16 {
      assert Hex(a)[..|Hex(a)| - 1] == Hex(a / 16) && Hex(b)[..|Hex(b)| - 1] == Hex(b / 16);
      HexInjective(a / 16, b / 16);
    }
  }

  lemma U16Injective(a: byte, b: byte, c: byte, d: byte)
    requires U16(a, b) == U16(c, d)
    ensures a == c && b == d
  {}

  /** A dotted quad names one address. */
  lemma Ipv4TextInjective(a: seq<byte>, b: seq<byte>)
    requires |a| == 4 && |b| == 4 && Ipv4Text(a) == Ipv4Text(b)
    ensures a == b
  {
    hide Decimal;
    var ra, rb := Decimal(a[2]) + "." + Decimal(a[3]), Decimal(b[2]) + "." + Decimal(b[3]);
    assert Ipv4Text(a) == Decimal(a[0]) + "." + (Decimal(a[1]) + "." + ra);
    assert Ipv4Text(b) == Decimal(b[0]) + "." + (Decimal(b[1]) + "." + rb);
    SplitAtFirst(Decimal(a[0]), Decimal(a[1]) + "." + ra, Decimal(b[0]), Decimal(b[1]) + "." + rb, '.');
    SplitAtFirst(Decimal(a[1]), ra, Decimal(b[1]), rb, '.');
    SplitAtFirst(Decimal(a[2]), Decimal(a[3]), Decimal(b[2]), Decimal(b[3]), '.');
    forall i | 0 <= i < 4
      ensures a[i] == b[i]
    {
      DecimalInjective(a[i], b[i]);
    }
  }

  /** So do groups of hexadecimal digits, of addresses of one size. */
  lemma {:induction false} Ipv6TextInjective(a: seq<byte>, b: seq<byte>)
    requires |a| == |b| >= 2 && |a| % 2 == 0 && Ipv6Text(a) == Ipv6Text(b)
    ensures a == b
    decreases |a|
  {
    hide Hex;
    var x, y := Hex(U16(a[0], a[1])), Hex(U16(b[0], b[1]));
    HexLacksColon(U16(a[0], a[1]));
    HexLacksColon(U16(b[0], b[1]));
    if |a| == 2 {
      assert x + "" == x && y + "" == y;
    } else {
      assert Ipv6Text(a) == x + ":" + Ipv6Text(a[2..]) && Ipv6Text(b) == y + ":" + Ipv6Text(b[2..]);
      SplitAtFirst(x, Ipv6Text(a[2..]), y, Ipv6Text(b[2..]), ':');
      Ipv6TextInjective(a[2..], b[2..]);
    }
    HexInjective(U16(a[0], a[1]), U16(b[0], b[1]));
    U16Injective(a[0], a[1], b[0], b[1]);
    assert a == [a[0], a[1]] + a[2..] && b == [b[0], b[1]] + b[2..];
  }

  /** The body of an entry, address and port, can be had back from what was read. */
  lemma AddressInjective(a: seq<byte>, b: seq<byte>, protocol: byte)
    requires ParseAddress(a, protocol).Some? && ParseAddress(a, protocol) == ParseAddress(b, protocol)
    ensures a == b
  {
    hide Ipv4Text, Ipv6Text;
    var n := |a| - 2;
    if n == 4 {
      Ipv4TextInjective(a[..n], b[..n]);
    } else {
      Ipv6TextInjective(a[..n], b[..n]);
    }
    U16Injective(a[n], a[n + 1], b[n], b[n + 1]);
    assert a == a[..n] + [a[n], a[n + 1]] && b == b[..n] + [b[n], b[n + 1]];
  }

  predicate IsHexDigit(c: char) { '0' <= c <= '9' || 'a' <= c <= 'f' }

  /** Lower-case hexadecimal digits, read. */
  function HexNumber(s: string): (n: nat)
    requires forall k :: 0 <= k < |s| ==> IsHexDigit(s[k])
  {
    if |s| == 0 then 0
    else
      var c := s[|s| - 1];
      assert IsHexDigit(c);
      HexNumber(s[..|s| - 1]) * 16 + (if c <= '9' then c as int - '0' as int else c as int - 'a' as int + 10)
  }

  predicate NoLeadingZero(s: string) { |s| == 1 || (|s| > 1 && s[0] != '0') }

  /** The text is a dotted quad that reads as these four bytes. */
  predicate ReadsAsQuad(text: string, ip: seq<byte>) {
    var parts := Split(text, '.');
    && |parts| == |ip|
    && forall i :: 0 <= i < |ip| ==> NoLeadingZero(parts[i]) && AllDigits(parts[i]) && DigitsVal(parts[i]) == ip[i]
  }

  predicate ReadsAsGroup(part: string, hi: byte, lo: byte) {
    && NoLeadingZero(part) && (forall k :: 0 <= k < |part| ==> IsHexDigit(part[k]))
    && HexNumber(part) == hi as int * 0x100 + lo as int
  }

  /** The text is groups of hexadecimal digits that read as these bytes, two each. */
  predicate ReadsAsGroups(text: string, ip: seq<byte>) {
    var parts := Split(text, ':');
    && |ip| == 2 * |parts|
    && forall i :: 0 <= i < |parts| ==> ReadsAsGroup(parts[i], ip[2 * i], ip[2 * i + 1])
  }

  lemma DecimalLacksDot(n: nat)
    ensures Lacks(Decimal(n), '.')
  {}

  lemma {:induction false} DecimalIsTidy(n: nat)
    ensures NoLeadingZero(Decimal(n)) && (n > 0 ==> Decimal(n)[0] != '0')
  {
    if n >= 10 { DecimalIsTidy(n / 10); }
  }

  /** The text of an IPv4 address reads as its four bytes, in order. */
  lemma Ipv4TextReads(b: seq<byte>)
    requires |b| == 4
    ensures ReadsAsQuad(Ipv4Text(b), b)
  {
    hide Decimal, DigitsVal;
    var w, x, y, z := Decimal(b[0]), Decimal(b[1]), Decimal(b[2]), Decimal(b[3]);
    forall i | 0 <= i < 4
      ensures Lacks(Decimal(b[i]), '.') && NoLeadingZero(Decimal(b[i])) && DigitsVal(Decimal(b[i])) == b[i]
    {
      DecimalLacksDot(b[i]);
      DecimalIsTidy(b[i]);
      DecimalValue(b[i]);
    }
    assert Ipv4Text(b) == w + "." + (x + "." + (y + "." + z));
    SplitPart(w, x + "." + (y + "." + z), '.');
    SplitPart(x, y + "." + z, '.');
    SplitPart(y, z, '.');
    SplitOne(z, '.');
    assert Split(Ipv4Text(b), '.') == [w, x, y, z];
  }

  lemma {:induction false} HexReads(n: nat)
    ensures Lacks(Hex(n), ':') && NoLeadingZero(Hex(n)) && (n > 0 ==> Hex(n)[0] != '0')
    ensures (forall k :: 0 <= k < |Hex(n)| ==> IsHexDigit(Hex(n)[k])) && HexNumber(Hex(n)) == n
    decreases n
  {
    if n >= 16 {
      HexReads(n / 16);
      var s := Hex(n);
      assert s[..|s| - 1] == Hex(n / 16) && s[|s| - 1] == HexDigit(n % 16);
    } else {
      assert Hex(n)[..0] == "";
    }
  }

  /** The text of an IPv6 address reads as its groups, in order. */
  lemma {:induction false} Ipv6TextReads(b: seq<byte>)
    requires |b| >= 2 && |b| % 2 == 0
    ensures ReadsAsGroups(Ipv6Text(b), b)
    decreases |b|
  {
    hide Hex, HexNumber, U16;
    var x := Hex(U16(b[0], b[1]));
    HexReads(U16(b[0], b[1]));
    GroupValue(b[0], b[1]);
    if |b| == 2 {
      assert Ipv6Text(b) == x + "" == x;
      SplitOne(x, ':');
    } else {
      Ipv6TextReads(b[2..]);
      assert Ipv6Text(b) == x + ":" + Ipv6Text(b[2..]);
      SplitPart(x, Ipv6Text(b[2..]), ':');
      var more := Split(Ipv6Text(b[2..]), ':');
      assert Split(Ipv6Text(b), ':') == [x] + more;
      hide Split, Ipv6Text, Lacks, NoLeadingZero;
      forall i | 0 <= i < |more| + 1
        ensures ReadsAsGroup(([x] + more)[i], b[2 * i], b[2 * i + 1])
      {
        if i > 0 { assert ReadsAsGroup(more[i - 1], b[2..][2 * (i - 1)], b[2..][2 * (i - 1) + 1]); }
      }
    }
  }

  lemma GroupValue(hi: byte, lo: byte)
    ensures U16(hi, lo) == hi as int * 0x100 + lo as int
  {}

  /** Every attribute and the address of such an element are read into place; the text
      of the address reads as the bytes of the body. */
  lemma Te2RoundTrip(
    id: u32, name: string, token: u32, auth: u32, fna: bool, rtt: u32, proto: byte, ip: seq<byte>, port: u16)
    requires |ip| == 4 || |ip| == 16
    ensures var r := ParseTe2(Te2Node(id, name, token, auth, fna, rtt, proto, ip, port));
            && r.Some?
            && var t := r.value;
               && t.relayId == id && t.relayName == name && t.tokenId == token && t.authTokenId == auth
               && t.isFna == fna && t.rtt == Some(rtt) && t.address.protocol == proto && t.address.port == port
               && (if |ip| == 4
                   then t.address.ipv6.None? && t.address.ipv4.Some? && ReadsAsQuad(t.address.ipv4.value, ip)
                   else t.address.ipv4.None? && t.address.ipv6.Some? && ReadsAsGroups(t.address.ipv6.value, ip))
  {
    hide ParseAddress, Ipv4Text, Ipv6Text, U32Attr, Decimal, Te2Node, Attr, NodeBytes, Be16, ReadsAsQuad, ReadsAsGroups;
    var n := Te2Node(id, name, token, auth, fna, rtt, proto, ip, port);
    Te2Attrs(id, name, token, auth, fna, rtt, proto, ip, port);
    AttrReads(n, "relay_id", id);
    AttrReads(n, "token_id", token);
    AttrReads(n, "auth_token_id", auth);
    AttrReads(n, "c2r_rtt", rtt);
    AttrReads(n, "protocol", proto);
    AddressReads(ip, port, proto);
    if |ip| == 4 { Ipv4TextReads(ip); } else { Ipv6TextReads(ip); }
  }

  /** The number an attribute spells, if it is there and is one. */
  function Spelled(n: Node, name: string): (r: Option<nat>) {
    if name in n.attrs then ParseUint(n.attrs[name], 0xffff_ffff) else None
  }

  function Or(o: Option<nat>, default: nat): (n: nat) { if o.Some? then o.value else default }

  /** Any entry with an address body: numbers that are missing or unreadable count as
      zero, a missing RTT or name as none, and the protocol keeps its low byte. */
  lemma Te2Reads(n: Node)
    requires NodeBytes(n).Some? && (|NodeBytes(n).value| == 6 || |NodeBytes(n).value| == 18)
    ensures var r := ParseTe2(n);
            && r.Some?
            && var t := r.value;
               && t.relayId == Or(Spelled(n, "relay_id"), 0) && t.tokenId == Or(Spelled(n, "token_id"), 0)
               && t.authTokenId == Or(Spelled(n, "auth_token_id"), 0) && t.rtt == Spelled(n, "c2r_rtt")
               && t.relayName == (if "relay_name" in n.attrs then n.attrs["relay_name"] else "")
               && (t.isFna <==> "is_fna" in n.attrs && n.attrs["is_fna"] == "1")
               && t.address.protocol == Or(Spelled(n, "protocol"), 0) % 0x100
  {
    hide ParseUint, Ipv4Text, Ipv6Text;
  }

  // ----- all entries -----

  function ParseTe2s(ns: seq<Node>): (r: seq<Te2>) {
    if |ns| == 0 then []
    else
      var k := |ns| - 1;
      ParseTe2s(ns[..k]) + (match ParseTe2(ns[k]) case None => [] case Some(t) => [t])
  }

  // ----- grouping, stated without an index -----

  predicate SameRelay(a: Te2, b: Te2) { a.relayId == b.relayId && a.relayName == b.relayName }

  /** Positions of the entries whose relay was not seen before. */
  function Firsts(ts: seq<Te2>): (r: seq<nat>)
    ensures forall i :: 0 <= i < |r| ==> r[i] < |ts|
  {
    if |ts| == 0 then []
    else
      var k := |ts| - 1;
      Firsts(ts[..k]) + (if exists j :: 0 <= j < k && SameRelay(ts[j], ts[k]) then [] else [k])
  }

  function AddressesOf(ts: seq<Te2>, f: Te2): (r: seq<RelayAddress>) {
    if |ts| == 0 then []
    else
      var k := |ts| - 1;
      AddressesOf(ts[..k], f) + (if SameRelay(ts[k], f) then [ts[k].address] else [])
  }

  function LastRtt(ts: seq<Te2>, f: Te2): (r: Option<u32>) {
    if |ts| == 0 then None
    else
      var k := |ts| - 1;
      if SameRelay(ts[k], f) && ts[k].rtt.Some? then ts[k].rtt else LastRtt(ts[..k], f)
  }

  /** The endpoint of one relay: identity and tokens of its first entry, all its
      addresses in document order, its last RTT. */
  function EndpointOf(ts: seq<Te2>, f: Te2): (e: Endpoint) {
    Endpoint(f.relayId, f.relayName, f.tokenId, f.authTokenId, f.isFna, AddressesOf(ts, f), LastRtt(ts, f))
  }

  function Grouped(ts: seq<Te2>): (r: seq<Endpoint>)
    ensures |r| == |Firsts(ts)|
  {
    var firsts := Firsts(ts);
    seq(|firsts|, i requires 0 <= i < |firsts| => EndpointOf(ts, ts[firsts[i]]))
  }

  /** First appearances come in document order. */
  lemma {:induction false} FirstsIncrease(ts: seq<Te2>)
    ensures forall i, j :: 0 <= i < j < |Firsts(ts)| ==> Firsts(ts)[i] < Firsts(ts)[j]
  {
    if |ts| > 0 { FirstsIncrease(ts[..|ts| - 1]); }
  }

  /** Each is new to everything before it. */
  lemma {:induction false} FirstsAreNew(ts: seq<Te2>, i: nat, j: nat)
    requires i < |Firsts(ts)| && j < Firsts(ts)[i]
    ensures !SameRelay(ts[j], ts[Firsts(ts)[i]])
    decreases |ts|
  {
    var n := |ts| - 1;
    if i < |Firsts(ts[..n])| {
      FirstsAreNew(ts[..n], i, j);
    }
  }

  /** Every entry belongs to a relay first seen at or before it. */
  lemma {:induction false} FirstOf(ts: seq<Te2>, k: nat) returns (i: nat)
    requires k < |ts|
    ensures i < |Firsts(ts)| && Firsts(ts)[i] <= k && SameRelay(ts[Firsts(ts)[i]], ts[k])
    decreases |ts|
  {
    var n := |ts| - 1;
    if k < n {
      i := FirstOf(ts[..n], k);
    } else if j :| 0 <= j < n && SameRelay(ts[j], ts[n]) {
      i := FirstOf(ts[..n], j);
    } else {
      i := |Firsts(ts[..n])|;
    }
  }

  /** No two endpoints have the same relay. */
  lemma GroupsAreDistinct(ts: seq<Te2>, i: nat, j: nat)
    requires i < j < |Grouped(ts)|
    ensures Grouped(ts)[i].relayId != Grouped(ts)[j].relayId || Grouped(ts)[i].relayName != Grouped(ts)[j].relayName
  {
    FirstsIncrease(ts);
    FirstsAreNew(ts, j, Firsts(ts)[i]);
  }

  predicate Unseen(ts: seq<Te2>, t: Te2) { forall j :: 0 <= j < |ts| ==> !SameRelay(ts[j], t) }

  lemma {:induction false} UnseenHasNothing(ts: seq<Te2>, t: Te2)
    requires Unseen(ts, t)
    ensures AddressesOf(ts, t) == [] && LastRtt(ts, t) == None
  {
    if |ts| > 0 {
      var n := |ts| - 1;
      assert !SameRelay(ts[n], t);
      assert forall j :: 0 <= j < n ==> ts[..n][j] == ts[j];
      UnseenHasNothing(ts[..n], t);
    }
  }

  /** What one more entry does to the endpoint of its relay. */
  function Extended(e: Endpoint, t: Te2): (r: Endpoint) {
    e.(addresses := e.addresses + [t.address], rtt := if t.rtt.Some? then t.rtt else e.rtt)
  }

  /** An entry of a new relay adds an endpoint at the end. */
  lemma GroupNew(ts: seq<Te2>, t: Te2)
    requires Unseen(ts, t)
    ensures Grouped(ts + [t])
         == Grouped(ts) + [Endpoint(t.relayId, t.relayName, t.tokenId, t.authTokenId, t.isFna, [t.address], t.rtt)]
  {
    hide EndpointOf;
    var us := ts + [t];
    FirstsMore(ts, t);
    forall i | 0 <= i < |Firsts(ts)|
      ensures Grouped(us)[i] == Grouped(ts)[i]
    {
      EndpointGrows(ts, t, ts[Firsts(ts)[i]]);
    }
    assert Grouped(us)[|Firsts(ts)|] == EndpointOf(us, t);
    EndpointGrows(ts, t, t);
    assert EndpointOf(ts, t) == Endpoint(t.relayId, t.relayName, t.tokenId, t.authTokenId, t.isFna, [], None) by {
      NothingYet(ts, t);
    }
    var last := Endpoint(t.relayId, t.relayName, t.tokenId, t.authTokenId, t.isFna, [t.address], t.rtt);
    assert EndpointOf(us, t) == last by { assert [] + [t.address] == [t.address]; }
    assert Grouped(us) == Grouped(ts) + [last];
  }

  lemma FirstsMore(ts: seq<Te2>, t: Te2)
    requires Unseen(ts, t)
    ensures Firsts(ts + [t]) == Firsts(ts) + [|ts|]
  {
    var us := ts + [t];
    assert us[..|ts|] == ts && us[|ts|] == t;
    assert forall j :: 0 <= j < |ts| ==> us[j] == ts[j];
  }

  lemma NothingYet(ts: seq<Te2>, t: Te2)
    requires Unseen(ts, t)
    ensures EndpointOf(ts, t) == Endpoint(t.relayId, t.relayName, t.tokenId, t.authTokenId, t.isFna, [], None)
  {
    UnseenHasNothing(ts, t);
  }

  /** An entry of a known relay extends that endpoint and no other. */
  lemma GroupKnown(ts: seq<Te2>, t: Te2, i: nat)
    requires i < |Firsts(ts)| && SameRelay(ts[Firsts(ts)[i]], t)
    ensures Grouped(ts + [t]) == Grouped(ts)[i := Extended(Grouped(ts)[i], t)]
  {
    hide EndpointOf, Extended;
    var us := ts + [t];
    FirstsSame(ts, t, Firsts(ts)[i]);
    forall k | 0 <= k < |Firsts(ts)|
      ensures Grouped(us)[k] == if k == i then Extended(Grouped(ts)[i], t) else Grouped(ts)[k]
    {
      EndpointGrows(ts, t, ts[Firsts(ts)[k]]);
      if k != i {
        FirstsIncrease(ts);
        FirstsAreNew(ts, if k < i then i else k, Firsts(ts)[if k < i then k else i]);
      }
    }
  }

  lemma FirstsSame(ts: seq<Te2>, t: Te2, j: nat)
    requires j < |ts| && SameRelay(ts[j], t)
    ensures Firsts(ts + [t]) == Firsts(ts)
  {
    var us := ts + [t];
    assert us[..|ts|] == ts && us[j] == ts[j] && us[|ts|] == t;
  }

  lemma EndpointGrows(ts: seq<Te2>, t: Te2, f: Te2)
    ensures EndpointOf(ts + [t], f) == if SameRelay(t, f) then Extended(EndpointOf(ts, f), t) else EndpointOf(ts, f)
  {
    assert (ts + [t])[..|ts|] == ts;
  }

  lemma OneMorePosition(before: seq<nat>, n: nat)
    requires forall i :: 0 <= i < |before| ==> before[i] < n
    ensures forall k :: k in before + [n] <==> k in before || k == n
    ensures (forall i, j :: 0 <= i < j < |before| ==> before[i] < before[j]) ==>
              forall i, j :: 0 <= i < j < |before + [n]| ==> (before + [n])[i] < (before + [n])[j]
  {
    var at := before + [n];
    assert forall k :: k in before ==> k in at;
    assert at[|before|] == n;
  }

  /** The addresses of an endpoint are those of its relay's entries, each once and in
      document order: `at` lists their positions. */
  lemma {:induction false} AddressesInOrder(ts: seq<Te2>, f: Te2) returns (at: seq<nat>)
    ensures forall k :: k in at <==> 0 <= k < |ts| && SameRelay(ts[k], f)
    ensures forall i :: 0 <= i < |at| ==> at[i] < |ts|
    ensures forall i, j :: 0 <= i < j < |at| ==> at[i] < at[j]
    ensures |AddressesOf(ts, f)| == |at|
    ensures forall i :: 0 <= i < |at| ==> AddressesOf(ts, f)[i] == ts[at[i]].address
  {
    at := [];
    if |ts| > 0 {
      hide SameRelay;
      var n := |ts| - 1;
      var before := AddressesInOrder(ts[..n], f);
      if SameRelay(ts[n], f) {
        at := before + [n];
        OneMorePosition(before, n);
      } else {
        at := before;
      }
    }
  }

  predicate IsFor(e: Endpoint, t: Te2) { e.relayId == t.relayId && e.relayName == t.relayName }

  /** Every entry is in exactly one endpoint: the only one for its relay. */
  lemma EntryInOneEndpoint(ts: seq<Te2>, k: nat) returns (i: nat)
    requires k < |ts|
    ensures i < |Grouped(ts)| && IsFor(Grouped(ts)[i], ts[k]) && ts[k].address in Grouped(ts)[i].addresses
    ensures forall j :: 0 <= j < |Grouped(ts)| && j != i ==> !IsFor(Grouped(ts)[j], ts[k])
  {
    hide Firsts, AddressesOf, LastRtt;
    i := FirstOf(ts, k);
    var at := AddressesInOrder(ts, ts[Firsts(ts)[i]]);
    var p :| 0 <= p < |at| && at[p] == k;
    assert AddressesOf(ts, ts[Firsts(ts)[i]])[p] == ts[k].address;
    forall j | 0 <= j < |Grouped(ts)| && j != i
      ensures !IsFor(Grouped(ts)[j], ts[k])
    {
      if j < i { GroupsAreDistinct(ts, j, i); } else { GroupsAreDistinct(ts, i, j); }
    }
  }

  /** All addresses of all endpoints. */
  function AllAddresses(es: seq<Endpoint>): (m: multiset<RelayAddress>) {
    if |es| == 0 then multiset{} else AllAddresses(es[..|es| - 1]) + multiset(es[|es| - 1].addresses)
  }

  lemma {:induction false} AllUpdate(es: seq<Endpoint>, i: nat, a: RelayAddress, e: Endpoint)
    requires i < |es| && e.addresses == es[i].addresses + [a]
    ensures AllAddresses(es[i := e]) == AllAddresses(es) + multiset{a}
    decreases |es|
  {
    var n := |es| - 1;
    if i < n {
      AllUpdate(es[..n], i, a, e);
      assert es[i := e][..n] == es[..n][i := e];
    } else {
      assert es[i := e][..n] == es[..n];
    }
  }

  /** The address bodies among the entries: 6 or 18 bytes. */
  function ValidAddresses(ns: seq<Node>): (r: seq<RelayAddress>) {
    if |ns| == 0 then []
    else
      var n := ns[|ns| - 1];
      var protocol := Or0(U32Attr(n, "protocol")) % 0x100;
      ValidAddresses(ns[..|ns| - 1])
      + (if NodeBytes(n).Some? && |NodeBytes(n).value| in {6, 18}
         then [ParseAddress(NodeBytes(n).value, protocol).value] else [])
  }

  function Addresses(ts: seq<Te2>): (r: seq<RelayAddress>)
    ensures |r| == |ts|
  {
    seq(|ts|, k requires 0 <= k < |ts| => ts[k].address)
  }

  lemma {:induction false} EntriesAreValid(ns: seq<Node>)
    ensures Addresses(ParseTe2s(ns)) == ValidAddresses(ns)
  {
    hide ParseAddress;
    if |ns| > 0 {
      var n := |ns| - 1;
      EntriesAreValid(ns[..n]);
      Te2ParsesIff(ns[n]);
    }
  }

  /** Grouping loses no address and lists none twice. */
  lemma {:induction false} GroupingConserves(ts: seq<Te2>)
    ensures AllAddresses(Grouped(ts)) == multiset(Addresses(ts))
  {
    if |ts| > 0 {
      var n := |ts| - 1;
      var init, t := ts[..n], ts[n];
      hide Grouped, SameRelay;
      GroupingConserves(init);
      assert ts == init + [t];
      assert Addresses(ts) == Addresses(init) + [t.address];
      if Unseen(init, t) {
        GroupNew(init, t);
        assert Grouped(ts)[..|Grouped(ts)| - 1] == Grouped(init);
      } else {
        var j :| 0 <= j < n && SameRelay(init[j], t);
        var i := FirstOf(init, j);
        assert SameRelay(init[Firsts(init)[i]], t) by { SameRelayChains(init[Firsts(init)[i]], init[j], t); }
        GroupKnown(init, t, i);
        AllUpdate(Grouped(init), i, t.address, Extended(Grouped(init)[i], t));
      }
    } else {
      assert Grouped(ts) == [];
    }
  }

  /** The addresses of all endpoints of a block are, with multiplicity, those of its
      entries that have a 6- or 18-byte body. */
  lemma AddressesConserved(relay: Node)
    ensures AllAddresses(RelayDataOf(relay).endpoints) == multiset(ValidAddresses(Children(relay, "te2")))
  {
    hide Grouped, ParseTe2s, ValidAddresses, Addresses;
    GroupingConserves(ParseTe2s(Children(relay, "te2")));
    EntriesAreValid(Children(relay, "te2"));
  }

  lemma SameRelayChains(a: Te2, b: Te2, c: Te2)
    requires SameRelay(a, b) && SameRelay(b, c)
    ensures SameRelay(a, c)
  {}

  // ----- the string key of the index -----

  function Key(t: Te2): (k: string) { Decimal(t.relayId) + ":" + t.relayName }

  /** The key tells relays apart: no digit is a colon. */
  lemma KeyInjective(a: Te2, b: Te2)
    ensures Key(a) == Key(b) <==> SameRelay(a, b)
  {
    if Key(a) == Key(b) {
      SplitAtFirst(Decimal(a.relayId), a.relayName, Decimal(b.relayId), b.relayName, ':');
      DecimalInjective(a.relayId, b.relayId);
    }
  }

  /** The index holds each relay's key with its endpoint's position. */
  ghost predicate Indexes(index: map<string, nat>, ts: seq<Te2>) {
    && (forall i :: 0 <= i < |Firsts(ts)| ==> Key(ts[Firsts(ts)[i]]) in index && index[Key(ts[Firsts(ts)[i]])] == i)
    && (forall k :: k in index ==> index[k] < |Firsts(ts)| && Key(ts[Firsts(ts)[index[k]]]) == k)
  }

  lemma IndexMiss(index: map<string, nat>, ts: seq<Te2>, t: Te2)
    requires Indexes(index, ts) && Key(t) !in index
    ensures Unseen(ts, t) && Indexes(index[Key(t) := |Firsts(ts)|], ts + [t])
  {
    forall j | 0 <= j < |ts|
      ensures !SameRelay(ts[j], t)
    {
      var i := FirstOf(ts, j);
      KeyInjective(ts[Firsts(ts)[i]], t);
      KeyInjective(ts[Firsts(ts)[i]], ts[j]);
    }
    var us := ts + [t];
    assert us[..|ts|] == ts;
    assert Firsts(us) == Firsts(ts) + [|ts|];
  }

  lemma IndexHit(index: map<string, nat>, ts: seq<Te2>, t: Te2)
    requires Indexes(index, ts) && Key(t) in index
    ensures index[Key(t)] < |Firsts(ts)| && SameRelay(ts[Firsts(ts)[index[Key(t)]]], t)
    ensures Indexes(index, ts + [t])
  {
    var i := index[Key(t)];
    KeyInjective(ts[Firsts(ts)[i]], t);
    var us := ts + [t];
    assert us[..|ts|] == ts;
    assert Firsts(us) == Firsts(ts);
  }

  lemma ExtendedInPlace(es: seq<Endpoint>, i: nat, t: Te2)
    requires i < |es|
    ensures var fs := es[i := es[i].(addresses := es[i].addresses + [t.address])];
            (if t.rtt.Some? then fs[i := fs[i].(rtt := t.rtt)] else fs) == es[i := Extended(es[i], t)]
  {}

  lemma PushedInPlace(es: seq<Endpoint>, t: Te2)
    ensures var fs := es + [Endpoint(t.relayId, t.relayName, t.tokenId, t.authTokenId, t.isFna, [], t.rtt)];
            fs[|es| := fs[|es|].(addresses := [t.address])]
            == es + [Endpoint(t.relayId, t.relayName, t.tokenId, t.authTokenId, t.isFna, [t.address], t.rtt)]
  {}

  /** The loop over `<te2>` with its hash index builds the grouping. */
  method ParseEndpoints(relay: Node) returns (endpoints: seq<Endpoint>)
    ensures endpoints == Grouped(ParseTe2s(Children(relay, "te2")))
  {
    hide Grouped, Indexes, Key, Firsts, ParseTe2, SameRelay, Extended, Unseen;
    var ns := Children(relay, "te2");
    endpoints := [];
    var index: map<string, nat> := map[];
    assert Grouped([]) == [] && Indexes(index, []) by { NothingGrouped(); }
    for k := 0 to |ns|
      invariant endpoints == Grouped(ParseTe2s(ns[..k]))
      invariant Indexes(index, ParseTe2s(ns[..k]))
    {
      assert ns[..k + 1][..k] == ns[..k];
      ghost var ts := ParseTe2s(ns[..k]);
      var parsed := ParseTe2(ns[k]);
      if parsed.None? {
        assert ts + [] == ts;
        continue;
      }
      var t := parsed.value;
      var idx;
      if Key(t) in index {
        IndexHit(index, ts, t);
        GroupKnown(ts, t, index[Key(t)]);
        idx := index[Key(t)];
        endpoints := endpoints[idx := endpoints[idx].(addresses := endpoints[idx].addresses + [t.address])];
        if t.rtt.Some? {
          endpoints := endpoints[idx := endpoints[idx].(rtt := t.rtt)];
        }
        ExtendedInPlace(Grouped(ts), idx, t);
      } else {
        IndexMiss(index, ts, t);
        GroupNew(ts, t);
        endpoints := endpoints
          + [Endpoint(t.relayId, t.relayName, t.tokenId, t.authTokenId, t.isFna, [], t.rtt)];
        idx := |endpoints| - 1;
        index := index[Key(t) := idx];
        endpoints := endpoints[idx := endpoints[idx].(addresses := [t.address])];
        PushedInPlace(Grouped(ts), t);
      }
    }
    assert ns[..|ns|] == ns;
  }

  lemma NothingGrouped()
    ensures Grouped([]) == [] && Indexes(map[], [])
  {}

  // ----- the whole block -----

  function RelayDataOf(relay: Node): (rd: RelayData) {
    RelayData(
      match Child(relay, "key") case None => None case Some(n) => NodeBytes(n),
      Attr(relay, "uuid"),
      TokensOf(Children(relay, "token")), TokensOf(Children(relay, "auth_token")),
      Grouped(ParseTe2s(Children(relay, "te2"))))
  }

  method ParseRelayData(relay: Node) returns (rd: RelayData)
    ensures rd == RelayDataOf(relay)
  {
    hide Grouped, TokensOf, ParseTe2s;
    var key: Option<seq<byte>> := match Child(relay, "key") case None => None case Some(n) => NodeBytes(n);
    var relayTokens := ParseIndexedTokens(relay, "token");
    var authTokens := ParseIndexedTokens(relay, "auth_token");
    var endpoints := ParseEndpoints(relay);
    rd := RelayData(key, Attr(relay, "uuid"), relayTokens, authTokens, endpoints);
  }

  function KeyNodeOf(key: Option<seq<byte>>): (ns: seq<Node>) {
    if key.Some? then [Node("key", map[], Data(key.value))] else []
  }

  /** A relay block: key, tokens, auth tokens and entries. */
  function RelayBlock(
    key: Option<seq<byte>>, uuid: Option<string>, tokens: seq<seq<byte>>, auth: seq<seq<byte>>, entries: seq<Node>)
    : (relay: Node)
  {
    Node("relay", if uuid.Some? then map["uuid" := uuid.value] else map[],
         Nodes(KeyNodeOf(key) + (PlainTokens("token", tokens) + (PlainTokens("auth_token", auth) + entries))))
  }

  /** What such a block says is read into its own field: the key as it stands, relay
      tokens and auth tokens apart, the entries grouped. */
  lemma RelayBlockReads(
    key: Option<seq<byte>>, uuid: Option<string>, tokens: seq<seq<byte>>, auth: seq<seq<byte>>, entries: seq<Node>)
    requires Uniform(entries, "te2")
    ensures RelayDataOf(RelayBlock(key, uuid, tokens, auth, entries))
         == RelayData(key, uuid, tokens[..Least(64, |tokens|)], auth[..Least(64, |auth|)], Grouped(ParseTe2s(entries)))
  {
    hide FirstTagged, AllTagged, PlainTokens, TokensOf, Grouped, ParseTe2s;
    BlockLookup(key, tokens, auth, entries, "key");
    BlockLookup(key, tokens, auth, entries, "token");
    BlockLookup(key, tokens, auth, entries, "auth_token");
    BlockLookup(key, tokens, auth, entries, "te2");
    TokensInOrder("token", tokens);
    TokensInOrder("auth_token", auth);
  }

  lemma BlockLookup(
    key: Option<seq<byte>>, tokens: seq<seq<byte>>, auth: seq<seq<byte>>, entries: seq<Node>, tag: string)
    requires Uniform(entries, "te2")
    ensures var a, b, c := KeyNodeOf(key), PlainTokens("token", tokens), PlainTokens("auth_token", auth);
            var ns := a + (b + (c + entries));
            && (tag == "key" ==> FirstTagged(ns, tag) == if key.Some? then Some(a[0]) else None)
            && AllTagged(ns, tag) == if tag == "key" then a else if tag == "token" then b
                                     else if tag == "auth_token" then c else if tag == "te2" then entries else []
  {
    hide FirstTagged, AllTagged;
    var a, b, c := KeyNodeOf(key), PlainTokens("token", tokens), PlainTokens("auth_token", auth);
    LookupUniform(a, "key", tag);
    LookupUniform(b, "token", tag);
    LookupUniform(c, "auth_token", tag);
    LookupUniform(entries, "te2", tag);
    FirstOfConcat(c, entries, tag);
    FirstOfConcat(b, c + entries, tag);
    FirstOfConcat(a, b + (c + entries), tag);
    AllOfConcat(c, entries, tag);
    AllOfConcat(b, c + entries, tag);
    AllOfConcat(a, b + (c + entries), tag);
  }

  // ----- the endpoint to dial -----

  function PrimaryPort(addresses: seq<RelayAddress>): (r: Option<u16>) {
    if |addresses| == 0 then None
    else if addresses[0].ipv4.Some? then Some(addresses[0].port)
    else PrimaryPort(addresses[1..])
  }

  predicate HasIpv4(e: Endpoint) { PrimaryPort(e.addresses).Some? }

  predicate Usable(rd: RelayData, e: Endpoint) {
    HasIpv4(e) && e.tokenId < |rd.relayTokens| && rd.relayTokens[e.tokenId] != []
  }

  predicate OnWebPort(e: Endpoint) { PrimaryPort(e.addresses) == Some(WEB_CLIENT_RELAY_PORT) }

  predicate Outbound(e: Endpoint) { !e.isFna && e.authTokenId != 0 }

  /** Position of the first endpoint that passes `test`. */
  function FindFirst(es: seq<Endpoint>, test: Endpoint -> bool): (r: Option<nat>)
    ensures r.Some? ==> r.value < |es| && test(es[r.value]) && forall i :: 0 <= i < r.value ==> !test(es[i])
    ensures r.None? ==> forall i :: 0 <= i < |es| ==> !test(es[i])
  {
    if |es| == 0 then None
    else if test(es[0]) then Some(0)
    else match FindFirst(es[1..], test) case None => None case Some(i) => Some(i + 1)
  }

  /** One pass over the four tiers. */
  function Pick(rd: RelayData, usableOnly: bool): (r: Option<nat>)
    ensures r.Some? ==> r.value < |rd.endpoints|
  {
    var ok := (e: Endpoint) => !usableOnly || Usable(rd, e);
    var web := FindFirst(rd.endpoints, e => OnWebPort(e) && ok(e));
    if web.Some? then web
    else
      var outbound := FindFirst(rd.endpoints, e => Outbound(e) && ok(e));
      if outbound.Some? then outbound
      else
        var nonFna := FindFirst(rd.endpoints, (e: Endpoint) => !e.isFna && ok(e));
        if nonFna.Some? then nonFna else FindFirst(rd.endpoints, ok)
  }

  /** The position of the endpoint the media transport dials. */
  function MediaEndpoint(rd: RelayData): (r: Option<nat>)
    ensures r.Some? ==> r.value < |rd.endpoints|
  {
    var usable := Pick(rd, true);
    if usable.Some? then usable else Pick(rd, false)
  }

  function Tier(e: Endpoint): (t: nat) {
    if OnWebPort(e) then 0 else if Outbound(e) then 1 else if !e.isFna then 2 else 3
  }

  function Rank(rd: RelayData, e: Endpoint): (n: nat) { (if Usable(rd, e) then 0 else 4) + Tier(e) }

  lemma PickIsLeast(rd: RelayData, usableOnly: bool)
    ensures Pick(rd, usableOnly).None? ==>
      forall j :: 0 <= j < |rd.endpoints| ==> usableOnly && !Usable(rd, rd.endpoints[j])
    ensures var r := Pick(rd, usableOnly);
            r.Some? ==>
              && (usableOnly ==> Usable(rd, rd.endpoints[r.value]))
              && forall j :: 0 <= j < |rd.endpoints| && (usableOnly ==> Usable(rd, rd.endpoints[j])) ==>
                   Tier(rd.endpoints[r.value]) < Tier(rd.endpoints[j])
                   || (Tier(rd.endpoints[r.value]) == Tier(rd.endpoints[j]) && r.value <= j)
  {}

  /** An endpoint that can be used: an IPv4 address, and a token that is held. */
  ghost predicate Dialable(rd: RelayData, e: Endpoint) {
    && (exists a :: a in e.addresses && a.ipv4.Some?)
    && e.tokenId < |rd.relayTokens| && rd.relayTokens[e.tokenId] != []
  }

  /** Its first IPv4 address has this port. */
  ghost predicate FirstIpv4On(e: Endpoint, port: u16) {
    exists i :: 0 <= i < |e.addresses| && e.addresses[i].ipv4.Some? && e.addresses[i].port == port
             && forall j :: 0 <= j < i ==> e.addresses[j].ipv4.None?
  }

  /** The lower the better: usable before not, then web port, outbound, non-FNA, any. */
  ghost function Preference(rd: RelayData, e: Endpoint): (n: nat) {
    (if Dialable(rd, e) then 0 else 4)
    + (if FirstIpv4On(e, 3480) then 0 else if !e.isFna && e.authTokenId != 0 then 1 else if !e.isFna then 2 else 3)
  }

  lemma {:induction false} PrimaryPortIs(addresses: seq<RelayAddress>) returns (i: nat)
    ensures PrimaryPort(addresses).None? <==> forall a :: a in addresses ==> a.ipv4.None?
    ensures PrimaryPort(addresses).Some? ==>
              && i < |addresses| && addresses[i].ipv4.Some? && PrimaryPort(addresses) == Some(addresses[i].port)
              && forall j :: 0 <= j < i ==> addresses[j].ipv4.None?
  {
    i := 0;
    if |addresses| > 0 && addresses[0].ipv4.None? {
      var k := PrimaryPortIs(addresses[1..]);
      assert forall a :: a in addresses <==> a == addresses[0] || a in addresses[1..];
      i := k + 1;
      assert forall j :: 0 < j < |addresses| ==> addresses[j] == addresses[1..][j - 1];
    }
  }

  lemma RankIsPreference(rd: RelayData, e: Endpoint)
    ensures Rank(rd, e) == Preference(rd, e)
  {
    hide PrimaryPort;
    var i := PrimaryPortIs(e.addresses);
    if PrimaryPort(e.addresses).Some? {
      assert e.addresses[i] in e.addresses;
      forall p: u16
        ensures FirstIpv4On(e, p) <==> p == e.addresses[i].port
      {}
    }
  }

  /** Two passes over four tiers are one lexicographic minimum over (unusable,
      tier, position), and there is a choice whenever there is an endpoint. */
  lemma MediaEndpointIsLeast(rd: RelayData)
    ensures MediaEndpoint(rd).None? <==> rd.endpoints == []
    ensures MediaEndpoint(rd).Some? ==>
      var i := MediaEndpoint(rd).value;
      forall j :: 0 <= j < |rd.endpoints| ==>
        Preference(rd, rd.endpoints[i]) < Preference(rd, rd.endpoints[j])
        || (Preference(rd, rd.endpoints[i]) == Preference(rd, rd.endpoints[j]) && i <= j)
  {
    hide MediaEndpoint, Rank, Preference;
    LeastByRank(rd);
    forall j | 0 <= j < |rd.endpoints|
      ensures Rank(rd, rd.endpoints[j]) == Preference(rd, rd.endpoints[j])
    {
      RankIsPreference(rd, rd.endpoints[j]);
    }
  }

  lemma LeastByRank(rd: RelayData)
    ensures MediaEndpoint(rd).None? <==> rd.endpoints == []
    ensures MediaEndpoint(rd).Some? ==>
      var i := MediaEndpoint(rd).value;
      forall j :: 0 <= j < |rd.endpoints| ==>
        Rank(rd, rd.endpoints[i]) < Rank(rd, rd.endpoints[j])
        || (Rank(rd, rd.endpoints[i]) == Rank(rd, rd.endpoints[j]) && i <= j)
  {
    hide Pick, Usable, Tier, OnWebPort, Outbound;
    PickIsLeast(rd, true);
    PickIsLeast(rd, false);
    if |rd.endpoints| > 0 { var e := rd.endpoints[0]; }
    forall j | 0 <= j < |rd.endpoints|
      ensures Tier(rd.endpoints[j]) <= 3
    {
      TierAtMost3(rd.endpoints[j]);
    }
  }

  lemma TierAtMost3(e: Endpoint)
    ensures Tier(e) <= 3
  {}
}
