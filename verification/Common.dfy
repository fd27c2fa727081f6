/** Small things that several parts of the model share. */
module Common {

  function Least(a: nat, b: nat): (m: nat) { if a <= b then a else b }

  predicate Lacks(s: string, c: char) { forall k :: 0 <= k < |s| ==> s[k] != c }

  /** What stands before the first separator can be told from what follows it. */
  lemma SplitAtFirst(x: string, r: string, y: string, s: string, c: char)
    requires Lacks(x, c) && Lacks(y, c) && x + [c] + r == y + [c] + s
    ensures x == y && r == s
  {
    var k := x + [c] + r;
    assert k[|x|] == c && k[|y|] == c;
    assert forall i :: 0 <= i < |x| ==> k[i] == x[i];
    assert forall i :: 0 <= i < |y| ==> k[i] == y[i];
    assert |x| == |y|;
    assert x == k[..|x|] && y == k[..|x|] && r == k[|x| + 1..] && s == k[|x| + 1..];
  }

  lemma SliceOfSlice<T>(m: seq<T>, off: nat, n: nat, i: nat, j: nat)
    requires off + n <= |m| && i <= j <= n
    ensures m[off..off + n][i..j] == m[off + i..off + j]
  {
    var a := m[off..off + n];
    forall k | 0 <= k < j - i
      ensures a[i..j][k] == m[off + i..off + j][k]
    {
      assert a[i..j][k] == a[i + k] == m[off + (i + k)];
    }
  }

  /** The parts of a text between separators. */
  function Split(s: string, c: char): (parts: seq<string>)
    ensures |parts| > 0
  {
    if |s| == 0 then [""]
    else
      var rest := Split(s[1..], c);
      if s[0] == c then [""] + rest else [[s[0]] + rest[0]] + rest[1..]
  }

  lemma {:induction false} SplitOne(x: string, c: char)
    requires Lacks(x, c)
    ensures Split(x, c) == [x]
  {
    if |x| > 0 {
      SplitOne(x[1..], c);
      assert [x[0]] + x[1..] == x;
    }
  }

  lemma {:induction false} SplitPart(x: string, rest: string, c: char)
    requires Lacks(x, c)
    ensures Split(x + [c] + rest, c) == [x] + Split(rest, c)
  {
    if |x| == 0 {
      assert (x + [c] + rest)[1..] == rest;
    } else {
      SplitPart(x[1..], rest, c);
      assert (x + [c] + rest)[1..] == x[1..] + [c] + rest;
      assert [x[0]] + x[1..] == x;
    }
  }
}
