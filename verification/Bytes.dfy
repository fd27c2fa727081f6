/** Machine integers as ranges of `int`, bytes, and the big- and little-endian
    encodings that every wire format of the call stack is built from. */
module Bytes {

  datatype Option<+T> = None | Some(value: T)

  type byte = x: int | 0 <= x < 0x100
  type u16 = x: int | 0 <= x < 0x1_0000
  type u32 = x: int | 0 <= x < 0x1_0000_0000
  type u64 = x: int | 0 <= x < 0x1_0000_0000_0000_0000

  function Pow2(k: nat): (p: nat)
    ensures p > 0
  {
    if k == 0 then 1 else 2 * Pow2(k - 1)
  }

  /** Bitwise exclusive or of two naturals of any width. */
  function Xor(a: nat, b: nat): (r: nat)
    decreases a
  {
    if a == 0 then b else 2 * Xor(a / 2, b / 2) + (if a % 2 == b % 2 then 0 else 1)
  }

  /** Xor one bit at a time, lowest bit last. */
  lemma XorBit(a: nat, b: nat, x: nat, y: nat)
    requires x < 2 && y < 2
    ensures Xor(2 * a + x, 2 * b + y) == 2 * Xor(a, b) + (if x == y then 0 else 1)
  {
    assert (2 * a + x) / 2 == a && (2 * b + y) / 2 == b;
  }

  lemma {:induction false} XorBound(a: nat, b: nat, k: nat)
    requires a < Pow2(k) && b < Pow2(k)
    ensures Xor(a, b) < Pow2(k)
    decreases k
  {
    if k != 0 {
      XorBound(a / 2, b / 2, k - 1);
      XorBit(a / 2, b / 2, a % 2, b % 2);
    }
  }

  lemma {:induction false} XorZero(a: nat)
    ensures Xor(a, 0) == a && Xor(0, a) == a && Xor(a, a) == 0
  {
    if a != 0 { XorZero(a / 2); }
  }

  lemma {:induction false} XorCommutes(a: nat, b: nat)
    ensures Xor(a, b) == Xor(b, a)
    decreases a + b
  {
    if a == 0 || b == 0 {
      XorZero(a);
      XorZero(b);
    } else {
      hide Xor;
      XorCommutes(a / 2, b / 2);
      XorBit(a / 2, b / 2, a % 2, b % 2);
      XorBit(b / 2, a / 2, b % 2, a % 2);
    }
  }

  lemma XorAssociatesUp(a: nat, b: nat, c: nat, x: nat, y: nat, z: nat)
    requires x < 2 && y < 2 && z < 2
    requires Xor(Xor(a, b), c) == Xor(a, Xor(b, c))
    ensures Xor(Xor(2 * a + x, 2 * b + y), 2 * c + z) == Xor(2 * a + x, Xor(2 * b + y, 2 * c + z))
  {
    hide Xor;
    XorBit(a, b, x, y);
    XorBit(b, c, y, z);
    XorBit(Xor(a, b), c, if x == y then 0 else 1, z);
    XorBit(a, Xor(b, c), x, if y == z then 0 else 1);
  }

  lemma Halves(a: nat)
    ensures a == 2 * (a / 2) + a % 2
  {}

  lemma {:induction false} XorAssociates(a: nat, b: nat, c: nat)
    ensures Xor(Xor(a, b), c) == Xor(a, Xor(b, c))
    decreases a
  {
    if a == 0 {
      XorZero(b);
      XorZero(Xor(b, c));
    } else {
      hide Xor;
      XorAssociates(a / 2, b / 2, c / 2);
      XorAssociatesUp(a / 2, b / 2, c / 2, a % 2, b % 2, c % 2);
      Halves(a);
      Halves(b);
      Halves(c);
    }
  }

  lemma XorCancels(a: nat, b: nat)
    ensures Xor(Xor(a, b), b) == a
  {
    hide Xor;
    XorAssociates(a, b, b);
    XorZero(b);
    XorZero(a);
  }

  /** XOR with a fixed operand is injective. */
  lemma XorInjective(a: nat, b: nat, c: nat)
    requires Xor(a, c) == Xor(b, c)
    ensures a == b
  {
    hide Xor;
    XorCancels(a, c);
    XorCancels(b, c);
  }

  function XorByte(a: byte, b: byte): (r: byte) {
    assert Pow2(8) == 0x100;
    XorBound(a, b, 8);
    Xor(a, b)
  }

  function Be16(n: u16): (s: seq<byte>)
    ensures |s| == 2
  {
    [n / 0x100, n % 0x100]
  }

  function Be32(n: u32): (s: seq<byte>)
    ensures |s| == 4
  {
    Be16(n / 0x1_0000) + Be16(n % 0x1_0000)
  }

  function U16(hi: byte, lo: byte): (n: u16) { hi * 0x100 + lo }

  function U32(a: byte, b: byte, c: byte, d: byte): (n: u32) {
    U16(a, b) * 0x1_0000 + U16(c, d)
  }

  lemma Be16RoundTrip(n: u16)
    ensures U16(Be16(n)[0], Be16(n)[1]) == n
  {}

  lemma Be32RoundTrip(n: u32)
    ensures U32(Be32(n)[0], Be32(n)[1], Be32(n)[2], Be32(n)[3]) == n
  {
    var h, l := n / 0x1_0000, n % 0x1_0000;
    Be16RoundTrip(h);
    Be16RoundTrip(l);
    assert Be32(n)[0] == Be16(h)[0] && Be32(n)[1] == Be16(h)[1];
    assert Be32(n)[2] == Be16(l)[0] && Be32(n)[3] == Be16(l)[1];
  }

  lemma Be16OfU16(a: byte, b: byte)
    ensures Be16(U16(a, b)) == [a, b]
  {}

  lemma Be32OfU32(a: byte, b: byte, c: byte, d: byte)
    ensures Be32(U32(a, b, c, d)) == [a, b, c, d]
  {
    hide U16, Be16;
    SplitWord(U16(a, b), U16(c, d));
    Be16OfU16(a, b);
    Be16OfU16(c, d);
  }

  lemma SplitWord(h: u16, l: u16)
    ensures (h * 0x1_0000 + l) / 0x1_0000 == h && (h * 0x1_0000 + l) % 0x1_0000 == l
  {}

  lemma ReadBack16(d: seq<byte>, i: nat, n: u16)
    requires i + 2 <= |d| && d[i..i + 2] == Be16(n)
    ensures U16(d[i], d[i + 1]) == n
  {
    Be16RoundTrip(n);
    assert d[i] == d[i..i + 2][0] && d[i + 1] == d[i..i + 2][1];
  }

  lemma ReadBack32(d: seq<byte>, i: nat, n: u32)
    requires i + 4 <= |d| && d[i..i + 4] == Be32(n)
    ensures U32(d[i], d[i + 1], d[i + 2], d[i + 3]) == n
  {
    var s := d[i..i + 4];
    Be32RoundTrip(n);
    assert d[i] == s[0] && d[i + 1] == s[1] && d[i + 2] == s[2] && d[i + 3] == s[3];
  }

  /** The value of a big-endian byte string of any length. */
  function BeVal(s: seq<byte>): (n: nat) {
    if |s| == 0 then 0 else BeVal(s[..|s| - 1]) * 0x100 + s[|s| - 1]
  }

  function Pow256(w: nat): (p: nat)
    ensures p > 0
  {
    if w == 0 then 1 else 0x100 * Pow256(w - 1)
  }

  lemma Powers()
    ensures Pow2(8) == 0x100 && Pow2(16) == 0x1_0000
    ensures Pow256(2) == 0x1_0000 && Pow256(4) == 0x1_0000_0000 && Pow256(8) == 0x1_0000_0000_0000_0000
    ensures Pow256(16) == 0x1_0000_0000_0000_0000_0000_0000_0000_0000
  {}

  lemma {:induction false} BeValBound(s: seq<byte>)
    ensures BeVal(s) < Pow256(|s|)
  {
    if |s| > 0 { BeValBound(s[..|s| - 1]); }
  }

  lemma ScaledStep(a: nat, p: nat, v: nat, b: byte)
    ensures (a * p + v) * 0x100 + b == a * (0x100 * p) + (v * 0x100 + b)
  {}

  lemma {:induction false} BeValConcat(s: seq<byte>, t: seq<byte>)
    ensures BeVal(s + t) == BeVal(s) * Pow256(|t|) + BeVal(t)
  {
    if |t| == 0 {
      assert s + t == s;
    } else {
      var n := |t| - 1;
      BeValConcat(s, t[..n]);
      assert (s + t)[..|s| + n] == s + t[..n];
      ScaledStep(BeVal(s), Pow256(n), BeVal(t[..n]), t[n]);
    }
  }

  function Zeros(n: nat): (s: seq<byte>)
    ensures |s| == n && forall i :: 0 <= i < n ==> s[i] == 0
  {
    seq(n, i => 0)
  }

  lemma BeVal2(a: byte, b: byte)
    ensures BeVal([a, b]) == a * 0x100 + b
  {
    assert [a, b][..1] == [a] && [a][..0] == [];
    assert BeVal([a]) == a;
  }

  lemma BeValBe16(n: u16)
    ensures BeVal(Be16(n)) == n
  {
    BeVal2(Be16(n)[0], Be16(n)[1]);
    Be16RoundTrip(n);
  }

  lemma BeVal4(a: byte, b: byte, c: byte, d: byte)
    ensures BeVal([a, b, c, d]) == U32(a, b, c, d)
  {
    assert [a, b, c, d] == [a, b] + [c, d];
    BeValConcat([a, b], [c, d]);
    BeVal2(a, b);
    BeVal2(c, d);
    Powers();
  }

  lemma BeValBe32(n: u32)
    ensures BeVal(Be32(n)) == n
  {
    Be32RoundTrip(n);
    var s := Be32(n);
    assert s == [s[0], s[1], s[2], s[3]];
    BeVal4(s[0], s[1], s[2], s[3]);
  }

  lemma {:induction false} BeValZeros(n: nat)
    ensures BeVal(Zeros(n)) == 0
  {
    if n > 0 {
      BeValZeros(n - 1);
      assert Zeros(n)[..n - 1] == Zeros(n - 1);
    }
  }

  function XorSeq(s: seq<byte>, t: seq<byte>): (r: seq<byte>)
    requires |s| == |t|
    ensures |r| == |s| && forall i :: 0 <= i < |s| ==> r[i] == XorByte(s[i], t[i])
  {
    seq(|s|, i requires 0 <= i < |s| => XorByte(s[i], t[i]))
  }

  function ShiftLeft(a: nat, k: nat): (r: nat) {
    if k == 0 then a else 2 * ShiftLeft(a, k - 1)
  }

  /** XOR acts on the low `k` bits and on the rest independently. */
  lemma {:induction false} XorShift(a: nat, b: nat, x: nat, y: nat, k: nat)
    requires x < Pow2(k) && y < Pow2(k)
    ensures Xor(ShiftLeft(a, k) + x, ShiftLeft(b, k) + y) == ShiftLeft(Xor(a, b), k) + Xor(x, y)
    decreases k
  {
    hide Xor;
    if k > 0 {
      var x', y' := x / 2, y / 2;
      XorShift(a, b, x', y', k - 1);
      XorBit(x', y', x % 2, y % 2);
      XorBit(ShiftLeft(a, k - 1) + x', ShiftLeft(b, k - 1) + y', x % 2, y % 2);
    } else {
      XorZero(0);
    }
  }

  lemma XorShift8(a: nat, b: nat, x: byte, y: byte)
    ensures Xor(a * 0x100 + x, b * 0x100 + y) == Xor(a, b) * 0x100 + Xor(x, y)
  {
    hide Xor;
    Powers();
    ShiftBy8(a);
    ShiftBy8(b);
    ShiftBy8(Xor(a, b));
    XorShift(a, b, x, y, 8);
  }

  lemma ShiftBy8(a: nat)
    ensures ShiftLeft(a, 8) == a * 0x100
  {
    assert ShiftLeft(a, 1) == 2 * a;
    assert ShiftLeft(a, 3) == 8 * a;
    assert ShiftLeft(a, 5) == 32 * a;
    assert ShiftLeft(a, 7) == 128 * a;
  }

  lemma XorShift16(a: nat, b: nat)
    ensures Xor(a * 0x1_0000, b * 0x1_0000) == Xor(a, b) * 0x1_0000
  {
    hide Xor;
    XorShift8(a * 0x100, b * 0x100, 0, 0);
    XorShift8(a, b, 0, 0);
    XorZero(0);
  }

  /** XOR of two equally long byte strings is XOR of their values. */
  lemma {:induction false} BeValXor(s: seq<byte>, t: seq<byte>)
    requires |s| == |t|
    ensures BeVal(XorSeq(s, t)) == Xor(BeVal(s), BeVal(t))
  {
    hide Xor;
    if |s| > 0 {
      var n := |s| - 1;
      BeValXor(s[..n], t[..n]);
      assert XorSeq(s, t)[..n] == XorSeq(s[..n], t[..n]);
      XorShift8(BeVal(s[..n]), BeVal(t[..n]), s[n], t[n]);
    } else {
      XorZero(0);
    }
  }
}
