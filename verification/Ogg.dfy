/** The Ogg page walk that finds the duration of a voice note: the granule
    position of the last page. */
module Ogg {
  import opened Bytes

  const CAPTURE: seq<byte> := [0x4f, 0x67, 0x67, 0x53]
  const HEADER_LEN := 27

  function LeVal(s: seq<byte>): (n: nat) {
    if |s| == 0 then 0 else s[0] + 0x100 * LeVal(s[1..])
  }

  function Sum(s: seq<byte>): (n: nat) {
    if |s| == 0 then 0 else Sum(s[..|s| - 1]) + s[|s| - 1]
  }

  /** A complete page header stands at `pos`, segment table included. */
  predicate PageAt(data: seq<byte>, pos: nat) {
    && pos + HEADER_LEN <= |data| && data[pos..pos + 4] == CAPTURE
    && pos + HEADER_LEN + data[pos + 26] <= |data|
  }

  /** Header length, with the segment table, plus the sum of the table. */
  function PageLength(data: seq<byte>, pos: nat): (n: nat)
    requires PageAt(data, pos)
    ensures n >= HEADER_LEN
  {
    var segments := data[pos + 26];
    HEADER_LEN + segments + Sum(data[pos + HEADER_LEN..pos + HEADER_LEN + segments])
  }

  function Granule(data: seq<byte>, pos: nat): (g: nat)
    requires PageAt(data, pos)
  {
    LeVal(data[pos + 6..pos + 14])
  }

  /** The granule of the last page of the chain that starts at `pos`. */
  function LastGranule(data: seq<byte>, pos: nat, last: Option<nat>): (r: Option<nat>)
    decreases |data| - pos
  {
    if !PageAt(data, pos) then last
    else LastGranule(data, pos + PageLength(data, pos), Some(Granule(data, pos)))
  }

  method SumBytes(s: seq<byte>) returns (n: nat)
    ensures n == Sum(s)
  {
    n := 0;
    for k := 0 to |s|
      invariant n == Sum(s[..k])
    {
      assert s[..k + 1][..k] == s[..k];
      n := n + s[k];
    }
    assert s[..|s|] == s;
  }

  method WalkPages(data: seq<byte>) returns (last: Option<nat>)
    ensures last == LastGranule(data, 0, None)
  {
    hide LeVal, Sum;
    var pos := 0;
    last := None;
    while pos + HEADER_LEN <= |data|
      invariant LastGranule(data, pos, last) == LastGranule(data, 0, None)
      decreases |data| - pos
    {
      if data[pos..pos + 4] != CAPTURE {
        return;
      }
      var granule := LeVal(data[pos + 6..pos + 14]);
      var headerLen := HEADER_LEN + data[pos + 26];
      if pos + headerLen > |data| {
        return;
      }
      var bodyLen := SumBytes(data[pos + HEADER_LEN..pos + headerLen]);
      last := Some(granule);
      pos := pos + headerLen + bodyLen;
    }
  }

  // ----- well-formed streams -----

  /** Section 6 of RFC 3533: capture pattern, version and type, granule position,
      serial, sequence and checksum, then the segment table and the segments. */
  datatype Page = Page(flags: seq<byte>, granule: seq<byte>, ids: seq<byte>, table: seq<byte>, body: seq<byte>)

  predicate WellFormed(p: Page) {
    |p.flags| == 2 && |p.granule| == 8 && |p.ids| == 12 && |p.table| < 0x100 && |p.body| == Sum(p.table)
  }

  function HeaderBytes(p: Page): (s: seq<byte>)
    requires WellFormed(p)
    ensures |s| == HEADER_LEN + |p.table|
  {
    [0x4f, 0x67, 0x67, 0x53] + p.flags + p.granule + p.ids + [|p.table|] + p.table
  }

  function PageBytes(p: Page): (s: seq<byte>)
    requires WellFormed(p)
  {
    HeaderBytes(p) + p.body
  }

  ghost predicate AllWellFormed(ps: seq<Page>) { forall k :: 0 <= k < |ps| ==> WellFormed(ps[k]) }

  function StreamBytes(ps: seq<Page>): (s: seq<byte>)
    requires AllWellFormed(ps)
  {
    if |ps| == 0 then [] else PageBytes(ps[0]) + StreamBytes(ps[1..])
  }

  lemma PageParts(pre: seq<byte>, p: Page, rest: seq<byte>)
    requires WellFormed(p)
    ensures var d := pre + HeaderBytes(p) + rest;
            && PageAt(d, |pre|) && Granule(d, |pre|) == LeVal(p.granule)
            && PageLength(d, |pre|) == HEADER_LEN + |p.table| + Sum(p.table)
  {
    var h := HeaderBytes(p);
    var d, n := pre + h + rest, |pre|;
    assert d[n..n + |h|] == h;
    assert h[..4] == CAPTURE && h[6..14] == p.granule && h[26] == |p.table| && h[27..] == p.table;
    assert d[n..n + 4] == h[..4] && d[n + 6..n + 14] == h[6..14] && d[n + 26] == h[26];
    assert d[n + 27..n + 27 + |p.table|] == h[27..];
  }

  /** Past any pages the walk stands at their end, with the last one's granule. */
  lemma {:induction false} WalkOverPages(pre: seq<byte>, ps: seq<Page>, rest: seq<byte>, last: Option<nat>)
    requires AllWellFormed(ps)
    ensures LastGranule(pre + StreamBytes(ps) + rest, |pre|, last)
         == LastGranule(pre + StreamBytes(ps) + rest, |pre| + |StreamBytes(ps)|,
                        if |ps| == 0 then last else Some(LeVal(ps[|ps| - 1].granule)))
    decreases |ps|
  {
    hide PageAt, PageLength, Granule, HeaderBytes;
    if |ps| > 0 {
      var p, more := ps[0], ps[1..];
      var d := pre + StreamBytes(ps) + rest;
      assert d == pre + HeaderBytes(p) + (p.body + StreamBytes(more) + rest);
      PageParts(pre, p, p.body + StreamBytes(more) + rest);
      assert d == (pre + PageBytes(p)) + StreamBytes(more) + rest;
      WalkOverPages(pre + PageBytes(p), more, rest, Some(LeVal(p.granule)));
    }
  }

  function Backwards(s: seq<byte>): (r: seq<byte>)
    ensures |r| == |s|
  {
    seq(|s|, i requires 0 <= i < |s| => s[|s| - 1 - i])
  }

  /** Little-endian is big-endian backwards. */
  lemma {:induction false} LittleEndian(s: seq<byte>)
    ensures LeVal(s) == BeVal(Backwards(s))
  {
    if |s| > 0 {
      LittleEndian(s[1..]);
      assert Backwards(s)[..|s| - 1] == Backwards(s[1..]);
    }
  }

  /** These bytes do not start with a page header. */
  predicate NoPage(rest: seq<byte>) {
    |rest| < 27 || rest[..4] != [0x4f, 0x67, 0x67, 0x53] || |rest| < 27 + rest[26] as int
  }

  lemma LastOfPages(ps: seq<Page>, rest: seq<byte>)
    requires AllWellFormed(ps) && !PageAt(rest, 0)
    ensures LastGranule(StreamBytes(ps) + rest, 0, None)
         == if |ps| == 0 then None else Some(LeVal(ps[|ps| - 1].granule))
  {
    hide LeVal, PageAt, PageLength, Granule, StreamBytes, LastGranule, AllWellFormed;
    var d := StreamBytes(ps) + rest;
    assert [] + StreamBytes(ps) + rest == d;
    WalkOverPages([], ps, rest, None);
    NoPageThere(StreamBytes(ps), rest);
    WalkStops(d, |StreamBytes(ps)|, if |ps| == 0 then None else Some(LeVal(ps[|ps| - 1].granule)));
  }

  lemma WalkStops(data: seq<byte>, pos: nat, last: Option<nat>)
    requires !PageAt(data, pos)
    ensures LastGranule(data, pos, last) == last
  {}

  /** A stream of pages, followed by bytes that do not start another page header,
      yields the granule position of its last page, read little-endian; with no page
      there is none. */
  lemma StreamYieldsLastGranule(ps: seq<Page>, rest: seq<byte>)
    requires AllWellFormed(ps) && NoPage(rest)
    ensures LastGranule(StreamBytes(ps) + rest, 0, None)
         == if |ps| == 0 then None else Some(BeVal(Backwards(ps[|ps| - 1].granule)))
  {
    hide LeVal, PageAt, StreamBytes, BeVal, NoPage, Backwards, LastGranule;
    NoPageIsNone(rest);
    LastOfPages(ps, rest);
    if |ps| > 0 { LittleEndian(ps[|ps| - 1].granule); }
  }

  lemma NoPageIsNone(rest: seq<byte>)
    ensures NoPage(rest) <==> !PageAt(rest, 0)
  {}

  lemma NoPageThere(s: seq<byte>, rest: seq<byte>)
    requires !PageAt(rest, 0)
    ensures !PageAt(s + rest, |s|)
  {
    var d, n := s + rest, |s|;
    if n + HEADER_LEN <= |d| {
      assert d[n..n + 4] == rest[0..4];
      assert d[n + 26] == rest[26];
    }
  }

  /** A last page cut off inside its body still counts; its header is enough. */
  lemma TruncatedLastPageCounts(ps: seq<Page>, p: Page, part: seq<byte>)
    requires AllWellFormed(ps) && WellFormed(p) && |part| < |p.body|
    ensures LastGranule(StreamBytes(ps) + (HeaderBytes(p) + part), 0, None) == Some(BeVal(Backwards(p.granule)))
  {
    hide LeVal, HeaderBytes, PageAt, PageLength, Granule, BeVal, Backwards, LastGranule, StreamBytes, AllWellFormed;
    LittleEndian(p.granule);
    var pre := StreamBytes(ps);
    var d := pre + (HeaderBytes(p) + part);
    assert [] + pre + (HeaderBytes(p) + part) == d == pre + HeaderBytes(p) + part;
    WalkOverPages([], ps, HeaderBytes(p) + part, None);
    PageParts(pre, p, part);
    WalkOne(d, |pre|, if |ps| == 0 then None else Some(LeVal(ps[|ps| - 1].granule)));
    PastTheEnd(d, |pre| + PageLength(d, |pre|));
    WalkStops(d, |pre| + PageLength(d, |pre|), Some(Granule(d, |pre|)));
  }

  lemma WalkOne(data: seq<byte>, pos: nat, last: Option<nat>)
    requires PageAt(data, pos)
    ensures LastGranule(data, pos, last)
         == LastGranule(data, pos + PageLength(data, pos), Some(Granule(data, pos)))
  {}

  lemma PastTheEnd(data: seq<byte>, pos: nat)
    requires pos >= |data|
    ensures !PageAt(data, pos)
  {}
}
