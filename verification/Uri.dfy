/** Percent-encoding of object keys and the canonical URI that is signed. */
module Uri {
  import opened Bytes
  import opened Common

  predicate Unreserved(b: byte) {
    'A' as int <= b <= 'Z' as int || 'a' as int <= b <= 'z' as int || '0' as int <= b <= '9' as int
    || b == '-' as int || b == '_' as int || b == '.' as int || b == '~' as int
  }

  function HexDigit(d: nat): (c: char)
    requires d < 16
  {
    if d < 10 then ('0' as int + d) as char else ('A' as int + d - 10) as char
  }

  function HexVal(c: char): (r: Option<nat>)
    ensures r.Some? ==> r.value < 16
  {
    if '0' <= c <= '9' then Some(c as int - '0' as int)
    else if 'A' <= c <= 'F' then Some(c as int - 'A' as int + 10)
    else None
  }

  function EncodeByte(b: byte, keepSlash: bool): (s: string)
    ensures |s| == 1 || |s| == 3
  {
    if Unreserved(b) then [b as char]
    else if b == '/' as int && keepSlash then "/"
    else ['%', HexDigit(b / 16), HexDigit(b % 16)]
  }

  function Encode(s: seq<byte>, keepSlash: bool): (r: string) {
    if |s| == 0 then [] else EncodeByte(s[0], keepSlash) + Encode(s[1..], keepSlash)
  }

  method UriEncode(s: seq<byte>, keepSlash: bool) returns (out: string)
    ensures out == Encode(s, keepSlash)
  {
    hide EncodeByte;
    out := "";
    for k := 0 to |s|
      invariant out + Encode(s[k..], keepSlash) == Encode(s, keepSlash)
    {
      assert s[k..][1..] == s[k + 1..];
      out := out + EncodeByte(s[k], keepSlash);
    }
    assert s[|s|..] == [];
  }

  /** Section 2.1 of RFC 3986: each `%XX` is the byte it names, any other
      character is itself. */
  function Decode(r: string): (s: Option<seq<byte>>)
    decreases |r|
  {
    if |r| == 0 then Some([])
    else if r[0] == '%' then
      if |r| < 3 || HexVal(r[1]).None? || HexVal(r[2]).None? then None
      else
        match Decode(r[3..])
        case None => None
        case Some(rest) => Some([HexVal(r[1]).value * 16 + HexVal(r[2]).value] + rest)
    else if r[0] as int >= 0x100 then None
    else
      match Decode(r[1..])
      case None => None
      case Some(rest) => Some([r[0] as int] + rest)
  }

  lemma HexRoundTrip(d: nat)
    requires d < 16
    ensures HexVal(HexDigit(d)) == Some(d)
  {}

  /** One encoded byte in front of anything decodable decodes to that byte. */
  lemma ByteDecodes(b: byte, keepSlash: bool, rest: string)
    requires Decode(rest).Some?
    ensures Decode(EncodeByte(b, keepSlash) + rest) == Some([b] + Decode(rest).value)
  {
    var e := EncodeByte(b, keepSlash);
    HexRoundTrip(b / 16);
    HexRoundTrip(b % 16);
    hide HexVal, HexDigit;
    if |e| == 3 {
      assert (e + rest)[3..] == rest;
      assert b / 16 * 16 + b % 16 == b;
    } else {
      assert (e + rest)[1..] == rest;
    }
  }

  /** Encoding loses nothing, with or without kept slashes. */
  lemma {:induction false} EncodingDecodes(s: seq<byte>, keepSlash: bool)
    ensures Decode(Encode(s, keepSlash)) == Some(s)
  {
    hide EncodeByte, Decode;
    if |s| > 0 {
      EncodingDecodes(s[1..], keepSlash);
      ByteDecodes(s[0], keepSlash, Encode(s[1..], keepSlash));
      assert s == [s[0]] + s[1..];
    } else {
      assert Decode("") == Some([]) by { EmptyDecodes(); }
    }
  }

  lemma EmptyDecodes()
    ensures Decode("") == Some([])
  {}

  predicate SafeChar(c: char, keepSlash: bool) {
    'A' <= c <= 'Z' || 'a' <= c <= 'z' || '0' <= c <= '9' || c in "-_.~%" || (c == '/' && keepSlash)
  }

  /** Only unreserved characters, percent signs and, if kept, slashes come out. */
  lemma {:induction false} EncodingIsSafe(s: seq<byte>, keepSlash: bool)
    ensures forall k :: 0 <= k < |Encode(s, keepSlash)| ==> SafeChar(Encode(s, keepSlash)[k], keepSlash)
  {
    if |s| > 0 {
      EncodingIsSafe(s[1..], keepSlash);
      ByteIsSafe(s[0], keepSlash);
    }
  }

  lemma ByteIsSafe(b: byte, keepSlash: bool)
    ensures forall k :: 0 <= k < |EncodeByte(b, keepSlash)| ==> SafeChar(EncodeByte(b, keepSlash)[k], keepSlash)
  {}

  lemma {:induction false} EncodingConcat(s: seq<byte>, t: seq<byte>, keepSlash: bool)
    ensures Encode(s + t, keepSlash) == Encode(s, keepSlash) + Encode(t, keepSlash)
  {
    hide EncodeByte;
    if |s| == 0 {
      assert s + t == t;
    } else {
      EncodingConcat(s[1..], t, keepSlash);
      assert (s + t)[1..] == s[1..] + t && (s + t)[0] == s[0];
    }
  }

  /** What a byte between any others is written as: itself if it is a letter, a digit
      or one of -_.~, or a slash to be kept; else a percent sign and two upper-case
      hexadecimal digits. */
  lemma EncodingOfByte(s: seq<byte>, b: byte, t: seq<byte>, keepSlash: bool) returns (e: string)
    ensures Encode(s + [b] + t, keepSlash) == Encode(s, keepSlash) + e + Encode(t, keepSlash)
    ensures e == [b as char] <==>
            || 'A' <= b as char <= 'Z' || 'a' <= b as char <= 'z' || '0' <= b as char <= '9'
            || b as char in "-_.~" || (b as char == '/' && keepSlash)
    ensures e == [b as char]
            || (|e| == 3 && e[0] == '%' && e[1] in "0123456789ABCDEF" && e[2] in "0123456789ABCDEF"
                && HexVal(e[1]) == Some(b / 16) && HexVal(e[2]) == Some(b % 16))
  {
    e := EncodeByte(b, keepSlash);
    ByteAsWritten(b, keepSlash);
    hide EncodeByte, HexVal;
    EncodingConcat(s + [b], t, keepSlash);
    EncodingConcat(s, [b], keepSlash);
    assert [b][1..] == [] && Encode([b], keepSlash) == e + [];
  }

  lemma ByteAsWritten(b: byte, keepSlash: bool)
    ensures var e := EncodeByte(b, keepSlash);
            && (e == [b as char] <==>
                  || 'A' <= b as char <= 'Z' || 'a' <= b as char <= 'z' || '0' <= b as char <= '9'
                  || b as char in "-_.~" || (b as char == '/' && keepSlash))
            && (e == [b as char]
                || (|e| == 3 && e[0] == '%' && e[1] in "0123456789ABCDEF" && e[2] in "0123456789ABCDEF"
                    && HexVal(e[1]) == Some(b / 16) && HexVal(e[2]) == Some(b % 16)))
  {
    HexRoundTrip(b / 16);
    HexRoundTrip(b % 16);
  }

  function CanonicalUri(bucket: seq<byte>, key: seq<byte>): (uri: string) {
    "/" + Encode(bucket, false) + "/" + Encode(key, true)
  }

  /** Different objects never share a canonical URI: the encoded bucket has no
      slash, so the second slash marks its end. */
  lemma CanonicalUriInjective(bucket: seq<byte>, key: seq<byte>, bucket': seq<byte>, key': seq<byte>)
    requires CanonicalUri(bucket, key) == CanonicalUri(bucket', key')
    ensures bucket == bucket' && key == key'
  {
    hide Encode;
    EncodingIsSafe(bucket, false);
    EncodingIsSafe(bucket', false);
    var u := CanonicalUri(bucket, key);
    assert u[1..] == Encode(bucket, false) + "/" + Encode(key, true);
    assert u[1..] == Encode(bucket', false) + "/" + Encode(key', true);
    SplitAtFirst(Encode(bucket, false), Encode(key, true), Encode(bucket', false), Encode(key', true), '/');
    EncodingDecodes(bucket, false);
    EncodingDecodes(bucket', false);
    EncodingDecodes(key, true);
    EncodingDecodes(key', true);
  }

  /** Slashes of the key stand in the URI, those of the bucket do not. */
  lemma KeySlashesStay(bucket: seq<byte>, s: seq<byte>, t: seq<byte>)
    ensures CanonicalUri(bucket, s + ['/' as int] + t) == CanonicalUri(bucket, s) + "/" + Encode(t, true)
    ensures forall k :: 0 <= k < |Encode(bucket, false)| ==> Encode(bucket, false)[k] != '/'
  {
    hide Encode;
    EncodingIsSafe(bucket, false);
    var e := EncodingOfByte(s, '/' as int, t, true);
    assert e == "/";
  }
}
