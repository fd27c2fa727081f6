/** Signalling nodes, and the reading and writing of numbers in their attributes. */
module Stanza {
  import opened Bytes

  datatype Content = Empty | Nodes(nodes: seq<Node>) | Data(bytes: seq<byte>)
  datatype Node = Node(tag: string, attrs: map<string, string>, content: Content)

  function Attr(n: Node, name: string): (r: Option<string>) {
    if name in n.attrs then Some(n.attrs[name]) else None
  }

  function ChildNodes(n: Node): (s: seq<Node>) {
    match n.content
    case Nodes(ns) => ns
    case _ => []
  }

  function FirstTagged(ns: seq<Node>, tag: string): (r: Option<Node>)
    ensures r.Some? ==> r.value.tag == tag && r.value in ns
    ensures r.None? ==> forall k :: 0 <= k < |ns| ==> ns[k].tag != tag
  {
    if |ns| == 0 then None else if ns[0].tag == tag then Some(ns[0]) else FirstTagged(ns[1..], tag)
  }

  function AllTagged(ns: seq<Node>, tag: string): (r: seq<Node>) {
    if |ns| == 0 then []
    else (if ns[0].tag == tag then [ns[0]] else []) + AllTagged(ns[1..], tag)
  }

  lemma {:induction false} FirstOfConcat(xs: seq<Node>, ys: seq<Node>, tag: string)
    ensures FirstTagged(xs + ys, tag)
         == if FirstTagged(xs, tag).Some? then FirstTagged(xs, tag) else FirstTagged(ys, tag)
  {
    if |xs| == 0 {
      assert xs + ys == ys;
    } else {
      assert (xs + ys)[1..] == xs[1..] + ys;
      FirstOfConcat(xs[1..], ys, tag);
    }
  }

  lemma {:induction false} AllOfConcat(xs: seq<Node>, ys: seq<Node>, tag: string)
    ensures AllTagged(xs + ys, tag) == AllTagged(xs, tag) + AllTagged(ys, tag)
  {
    if |xs| == 0 {
      assert xs + ys == ys;
    } else {
      assert (xs + ys)[1..] == xs[1..] + ys;
      AllOfConcat(xs[1..], ys, tag);
      var p := if xs[0].tag == tag then [xs[0]] else [];
      assert p + (AllTagged(xs[1..], tag) + AllTagged(ys, tag)) == p + AllTagged(xs[1..], tag) + AllTagged(ys, tag);
    }
  }

  predicate Uniform(ns: seq<Node>, tag: string) { forall k :: 0 <= k < |ns| ==> ns[k].tag == tag }

  /** Among nodes of one tag, all are found or none. */
  lemma {:induction false} LookupUniform(ns: seq<Node>, own: string, tag: string)
    requires Uniform(ns, own)
    ensures AllTagged(ns, tag) == if tag == own then ns else []
    ensures FirstTagged(ns, tag) == if tag == own && |ns| > 0 then Some(ns[0]) else None
  {
    if |ns| > 0 {
      LookupUniform(ns[1..], own, tag);
      assert [ns[0]] + ns[1..] == ns;
    }
  }

  function Child(n: Node, tag: string): (r: Option<Node>) { FirstTagged(ChildNodes(n), tag) }

  function Children(n: Node, tag: string): (r: seq<Node>) { AllTagged(ChildNodes(n), tag) }

  function NodeBytes(n: Node): (r: Option<seq<byte>>) {
    match n.content
    case Data(b) => Some(b)
    case _ => None
  }

  // ----- decimal numbers -----

  predicate IsDigit(c: char) { '0' <= c <= '9' }

  predicate AllDigits(s: string) { forall k :: 0 <= k < |s| ==> IsDigit(s[k]) }

  function DigitChar(d: nat): (c: char)
    requires d < 10
    ensures IsDigit(c)
  {
    ('0' as int + d) as char
  }

  function DigitVal(c: char): (d: nat)
    requires IsDigit(c)
    ensures d < 10
  {
    c as int - '0' as int
  }

  function Decimal(n: nat): (s: string)
    ensures |s| > 0 && forall k :: 0 <= k < |s| ==> IsDigit(s[k])
  {
    if n < 10 then [DigitChar(n)] else Decimal(n / 10) + [DigitChar(n % 10)]
  }

  function DigitsVal(s: string): (n: nat)
    requires forall k :: 0 <= k < |s| ==> IsDigit(s[k])
  {
    if |s| == 0 then 0 else DigitsVal(s[..|s| - 1]) * 10 + DigitVal(s[|s| - 1])
  }

  /** An unsigned number as the standard library reads it: an optional plus sign,
      then digits only, at least one, and no overflow past `max`. */
  function ParseUint(s: string, max: nat): (r: Option<nat>)
    ensures r.Some? ==> r.value <= max
  {
    var digits := if |s| > 0 && s[0] == '+' then s[1..] else s;
    if |digits| == 0 || !AllDigits(digits) then None
    else if DigitsVal(digits) <= max then Some(DigitsVal(digits)) else None
  }

  const U32_MAX := 0xffff_ffff
  const USIZE_MAX := 0xffff_ffff_ffff_ffff

  lemma {:induction false} DecimalValue(n: nat)
    ensures DigitsVal(Decimal(n)) == n
    decreases n
  {
    if n >= 10 {
      DecimalValue(n / 10);
      var s := Decimal(n);
      assert s[..|s| - 1] == Decimal(n / 10);
    } else {
      assert Decimal(n)[..0] == [];
    }
  }

  /** Written numbers read back. */
  lemma DecimalRoundTrip(n: nat, max: nat)
    requires n <= max
    ensures ParseUint(Decimal(n), max) == Some(n)
  {
    DecimalValue(n);
    assert IsDigit(Decimal(n)[0]);
  }

  function Zeroes(n: nat): (s: string)
    ensures |s| == n && forall k :: 0 <= k < n ==> s[k] == '0'
  {
    seq(n, i => '0')
  }

  lemma {:induction false} LeadingZeroes(k: nat, s: string)
    requires forall i :: 0 <= i < |s| ==> IsDigit(s[i])
    ensures DigitsVal(Zeroes(k) + s) == DigitsVal(s)
  {
    if |s| == 0 {
      assert Zeroes(k) + s == Zeroes(k);
      ZeroesVal(k);
    } else {
      assert (Zeroes(k) + s)[..k + |s| - 1] == Zeroes(k) + s[..|s| - 1];
      LeadingZeroes(k, s[..|s| - 1]);
    }
  }

  lemma {:induction false} ZeroesVal(k: nat)
    ensures DigitsVal(Zeroes(k)) == 0
  {
    if k > 0 {
      assert Zeroes(k)[..k - 1] == Zeroes(k - 1);
      ZeroesVal(k - 1);
    }
  }

  /** What is read as a number: digits, with leading zeros or a plus sign or not, up to
      the maximum. */
  lemma NumberReads(plus: bool, zeroes: nat, n: nat, max: nat)
    ensures ParseUint((if plus then "+" else "") + Zeroes(zeroes) + Decimal(n), max)
         == if n <= max then Some(n) else None
  {
    hide DigitsVal, Decimal;
    var digits := Zeroes(zeroes) + Decimal(n);
    LeadingZeroes(zeroes, Decimal(n));
    DecimalValue(n);
    assert IsDigit(digits[0]);
    if plus {
      assert ("+" + Zeroes(zeroes) + Decimal(n))[1..] == digits;
    } else {
      assert "" + Zeroes(zeroes) + Decimal(n) == digits;
    }
  }

  /** What is not: nothing, a lone plus sign, or anything with another character. */
  lemma OtherTextRefused(s: string, max: nat)
    ensures ParseUint("", max) == None && ParseUint("+", max) == None
    ensures (exists k :: 0 <= k < |s| && !('0' <= s[k] <= '9') && !(k == 0 && s[k] == '+')) ==>
              ParseUint(s, max) == None
  {
    if k :| 0 <= k < |s| && !('0' <= s[k] <= '9') && !(k == 0 && s[k] == '+') {
      var digits := if |s| > 0 && s[0] == '+' then s[1..] else s;
      if s[0] == '+' {
        assert digits[k - 1] == s[k];
      } else {
        assert digits[k] == s[k];
      }
      assert !AllDigits(digits);
    }
  }

  function U32Attr(n: Node, name: string): (r: Option<u32>) {
    match Attr(n, name)
    case None => None
    case Some(s) => (match ParseUint(s, U32_MAX) case None => None case Some(v) => Some(v as u32))
  }
}
