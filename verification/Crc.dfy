/** The bitwise CRC-32 (reflected, polynomial 0xedb88320) behind the STUN
    FINGERPRINT, and why it catches every short burst of errors. */
module Crc {
  import opened Bytes

  const POLY: u32 := 0xedb8_8320
  const ALL_ONES: u32 := 0xffff_ffff

  /** One shift of the register: `(crc >> 1) ^ (POLY if the low bit was set)`. */
  function Step(c: u32): (r: u32) {
    StepBound(c);
    Xor(c / 2, if c % 2 == 1 then POLY else 0)
  }

  lemma StepBound(c: u32)
    ensures Xor(c / 2, if c % 2 == 1 then POLY else 0) < 0x1_0000_0000
  {
    Pow2Of32();
    XorBound(c / 2, if c % 2 == 1 then POLY else 0, 32);
  }

  lemma Pow2Of32()
    ensures Pow2(32) == 0x1_0000_0000
  {
    Powers();
    Pow2Sum(16, 16);
  }

  lemma {:induction false} Pow2Sum(a: nat, b: nat)
    ensures Pow2(a + b) == Pow2(a) * Pow2(b)
    decreases b
  {
    if b > 0 {
      Pow2Sum(a, b - 1);
      assert Pow2(a) * (2 * Pow2(b - 1)) == 2 * (Pow2(a) * Pow2(b - 1));
    }
  }

  function Steps(c: u32, n: nat): (r: u32)
    decreases n
  {
    if n == 0 then c else Steps(Step(c), n - 1)
  }

  function Xor32(a: u32, b: u32): (r: u32) {
    Pow2Of32();
    XorBound(a, b, 32);
    Xor(a, b)
  }

  /** The register after the bytes of `buf`, started from `c`. */
  function Register(c: u32, buf: seq<byte>): (r: u32) {
    if |buf| == 0 then c else Steps(Xor32(Register(c, buf[..|buf| - 1]), buf[|buf| - 1]), 8)
  }

  function Crc32(buf: seq<byte>): (r: u32) { ALL_ONES - Register(ALL_ONES, buf) }

  method ComputeCrc32(buf: seq<byte>) returns (r: u32)
    ensures r == Crc32(buf)
  {
    hide Xor, Step;
    var crc: u32 := ALL_ONES;
    for k := 0 to |buf|
      invariant crc == Register(ALL_ONES, buf[..k])
    {
      assert buf[..k + 1][..k] == buf[..k];
      ghost var before: u32 := Xor32(crc, buf[k]);
      crc := Xor32(crc, buf[k]);
      for n := 0 to 8
        invariant Steps(crc, 8 - n) == Steps(before, 8)
      {
        crc := Step(crc);
      }
    }
    assert buf[..|buf|] == buf;
    r := ALL_ONES - crc;
  }

  // ----- the step is linear and loses nothing -----

  lemma Medial(a: nat, b: nat, c: nat, d: nat)
    ensures Xor(Xor(a, b), Xor(c, d)) == Xor(Xor(a, c), Xor(b, d))
  {
    hide Xor;
    XorAssociates(a, b, Xor(c, d));
    XorAssociates(b, c, d);
    XorCommutes(b, c);
    XorAssociates(c, b, d);
    XorAssociates(a, c, Xor(b, d));
  }

  function Feedback(bit: nat): (r: u32) { if bit == 1 then POLY else 0 }

  lemma FeedbackLinear(x: nat, y: nat)
    requires x < 2 && y < 2
    ensures Feedback(if x == y then 0 else 1) == Xor(Feedback(x), Feedback(y))
  {
    hide Xor;
    XorZero(POLY);
    XorZero(0);
  }

  lemma StepLinear(a: u32, b: u32)
    ensures Step(Xor32(a, b)) == Xor32(Step(a), Step(b))
  {
    hide Xor;
    Halves(a);
    Halves(b);
    XorBit(a / 2, b / 2, a % 2, b % 2);
    FeedbackLinear(a % 2, b % 2);
    Medial(a / 2, b / 2, Feedback(a % 2), Feedback(b % 2));
  }

  lemma StepInjective(a: u32, b: u32)
    requires Step(a) == Step(b)
    ensures a == b
  {
    hide Xor;
    if a % 2 == b % 2 {
      XorInjective(a / 2, b / 2, Feedback(a % 2));
    } else {
      var odd, even := if a % 2 == 1 then a else b, if a % 2 == 1 then b else a;
      XorZero(even / 2);
      XorCancels(odd / 2, POLY);
      XorTopBit(even / 2, odd / 2);
      assert false;
    }
  }

  /** The polynomial has its top bit set, so folding it in always shows. */
  lemma XorTopBit(a: nat, b: nat)
    requires a < 0x8000_0000 && b < 0x8000_0000
    ensures Xor(b, POLY) != a
  {
    hide Xor;
    Pow2Of31();
    if Xor(b, POLY) == a {
      XorCommutes(b, POLY);
      XorCancels(POLY, b);
      XorBound(a, b, 31);
      assert false;
    }
  }

  lemma Pow2Of31()
    ensures Pow2(31) == 0x8000_0000
  {
    Pow2Of32();
  }

  lemma {:induction false} StepsInjective(a: u32, b: u32, n: nat)
    requires Steps(a, n) == Steps(b, n)
    ensures a == b
    decreases n
  {
    hide Step;
    if n > 0 {
      StepsInjective(Step(a), Step(b), n - 1);
      StepInjective(a, b);
    }
  }

  // ----- the message as bits, lowest bit of each byte first -----

  type bit = x: int | 0 <= x < 2

  function BitsOf(v: nat, n: nat): (s: seq<bit>)
    ensures |s| == n
    decreases n
  {
    if n == 0 then [] else [v % 2] + BitsOf(v / 2, n - 1)
  }

  function Bits(buf: seq<byte>): (s: seq<bit>)
    ensures |s| == 8 * |buf|
  {
    if |buf| == 0 then [] else Bits(buf[..|buf| - 1]) + BitsOf(buf[|buf| - 1], 8)
  }

  /** The number a short bit string spells, lowest bit first. */
  function BitsVal(s: seq<bit>): (v: nat)
    ensures v < Pow2(|s|)
  {
    if |s| == 0 then 0 else s[0] + 2 * BitsVal(s[1..])
  }

  lemma {:induction false} BitsOfVal(s: seq<bit>)
    ensures BitsOf(BitsVal(s), |s|) == s
  {
    if |s| > 0 {
      BitsOfVal(s[1..]);
      var v := BitsVal(s);
      assert v % 2 == s[0] && v / 2 == BitsVal(s[1..]);
      assert s == [s[0]] + s[1..];
    }
  }

  lemma {:induction false} ValOfBits(v: nat, n: nat)
    requires v < Pow2(n)
    ensures BitsVal(BitsOf(v, n)) == v
    decreases n
  {
    if n > 0 {
      ValOfBits(v / 2, n - 1);
      assert BitsOf(v, n)[1..] == BitsOf(v / 2, n - 1);
    }
  }

  lemma {:induction false} BitsInjective(a: seq<byte>, b: seq<byte>)
    requires |a| == |b| && Bits(a) == Bits(b)
    ensures a == b
  {
    hide BitsOf, Bits;
    if |a| > 0 {
      var n := |a| - 1;
      BitsSplit(a);
      BitsSplit(b);
      assert Bits(a)[..8 * n] == Bits(a[..n]) && Bits(b)[..8 * n] == Bits(b[..n]);
      assert Bits(a)[8 * n..] == BitsOf(a[n], 8) && Bits(b)[8 * n..] == BitsOf(b[n], 8);
      BitsInjective(a[..n], b[..n]);
      Powers();
      ValOfBits(a[n], 8);
      ValOfBits(b[n], 8);
      assert a == a[..n] + [a[n]] && b == b[..n] + [b[n]];
    }
  }

  lemma BitsSplit(a: seq<byte>)
    requires |a| > 0
    ensures Bits(a) == Bits(a[..|a| - 1]) + BitsOf(a[|a| - 1], 8)
  {}

  lemma {:induction false} BitsConcat(a: seq<byte>, b: seq<byte>)
    ensures Bits(a + b) == Bits(a) + Bits(b)
  {
    hide BitsOf, Bits;
    if |b| == 0 {
      assert a + b == a && Bits(b) == [];
    } else {
      var n := |b| - 1;
      BitsConcat(a, b[..n]);
      BitsSplit(b);
      BitsSplit(a + b);
      assert (a + b)[..|a + b| - 1] == a + b[..n] && (a + b)[|a + b| - 1] == b[n];
    }
  }

  /** The same register, fed one bit per shift. */
  function FeedBits(c: u32, s: seq<bit>): (r: u32)
    decreases |s|
  {
    if |s| == 0 then c else FeedBits(Step(Xor32(c, s[0])), s[1..])
  }

  lemma {:induction false} FeedConcat(c: u32, s: seq<bit>, t: seq<bit>)
    ensures FeedBits(c, s + t) == FeedBits(FeedBits(c, s), t)
    decreases |s|
  {
    hide Step, Xor32;
    if |s| == 0 {
      assert s + t == t;
    } else {
      FeedConcat(Step(Xor32(c, s[0])), s[1..], t);
      assert (s + t)[1..] == s[1..] + t;
    }
  }

  /** Splitting off the lowest bit before a shift. */
  lemma StepByBit(c: u32, v: u32)
    ensures Step(Xor32(c, v)) == Xor32(Step(Xor32(c, v % 2)), v / 2)
  {
    hide Xor;
    var h, e := v / 2, v % 2;
    Halves(v);
    XorBit(0, h, e, 0);
    XorZero(h);
    XorAssociates(c, e, 2 * h);
    StepLinear(Xor32(c, e), 2 * h);
  }

  /** Up to 32 bits act on the register like one XOR followed by shifts. */
  lemma {:induction false} FeedIsOneXor(c: u32, v: u32, n: nat)
    requires v < Pow2(n)
    ensures FeedBits(c, BitsOf(v, n)) == Steps(Xor32(c, v), n)
    decreases n
  {
    hide Step, Xor32;
    if n == 0 {
      assert Xor32(c, 0) == c by { XorNothing(c); }
    } else {
      assert BitsOf(v, n)[1..] == BitsOf(v / 2, n - 1);
      FeedIsOneXor(Step(Xor32(c, v % 2)), v / 2, n - 1);
      StepByBit(c, v);
    }
  }

  lemma XorNothing(c: u32)
    ensures Xor32(c, 0) == c
  {
    XorZero(c);
  }

  lemma {:induction false} RegisterIsFeed(c: u32, buf: seq<byte>)
    ensures Register(c, buf) == FeedBits(c, Bits(buf))
  {
    hide Step, Xor32, BitsOf;
    if |buf| > 0 {
      var n := |buf| - 1;
      RegisterIsFeed(c, buf[..n]);
      FeedConcat(c, Bits(buf[..n]), BitsOf(buf[n], 8));
      Powers();
      FeedIsOneXor(Register(c, buf[..n]), buf[n], 8);
    }
  }

  lemma {:induction false} FeedInjective(c: u32, d: u32, s: seq<bit>)
    requires FeedBits(c, s) == FeedBits(d, s)
    ensures c == d
    decreases |s|
  {
    hide Step, Xor;
    if |s| > 0 {
      FeedInjective(Step(Xor32(c, s[0])), Step(Xor32(d, s[0])), s[1..]);
      StepInjective(Xor32(c, s[0]), Xor32(d, s[0]));
      XorInjective(c, d, s[0]);
    }
  }

  /** At most 32 bits fed from one state leave a state that tells them apart. */
  lemma WindowInjective(c: u32, s: seq<bit>, t: seq<bit>)
    requires |s| == |t| <= 32 && FeedBits(c, s) == FeedBits(c, t)
    ensures s == t
  {
    hide Step, Xor;
    Pow2Of32();
    Pow2Grows(|s|, 32);
    BitsOfVal(s);
    BitsOfVal(t);
    var x, y := BitsVal(s), BitsVal(t);
    FeedIsOneXor(c, x, |s|);
    FeedIsOneXor(c, y, |s|);
    StepsInjective(Xor32(c, x), Xor32(c, y), |s|);
    XorCommutes(c, x);
    XorCommutes(c, y);
    XorInjective(x, y, c);
  }

  lemma {:induction false} Pow2Grows(m: nat, n: nat)
    requires m <= n
    ensures Pow2(m) <= Pow2(n)
    decreases n
  {
    if m < n { Pow2Grows(m, n - 1); }
  }

  /** Burst detection: messages of one length that differ, but only inside some
      run of at most 32 consecutive bits, never have the same CRC. */
  lemma CrcDetectsBurst(a: seq<byte>, b: seq<byte>, p: nat, m: nat)
    requires |a| == |b| && a != b
    requires m <= 32 && p + m <= 8 * |a|
    requires Bits(a)[..p] == Bits(b)[..p] && Bits(a)[p + m..] == Bits(b)[p + m..]
    ensures Crc32(a) != Crc32(b)
  {
    hide Register, FeedBits, Bits;
    var s, t := Bits(a), Bits(b);
    var x, y := s[p..p + m], t[p..p + m];
    assert s == s[..p] + (x + s[p + m..]) && t == s[..p] + (y + s[p + m..]);
    if Crc32(a) == Crc32(b) {
      RegisterIsFeed(ALL_ONES, a);
      RegisterIsFeed(ALL_ONES, b);
      var c := FeedBits(ALL_ONES, s[..p]);
      FeedConcat(ALL_ONES, s[..p], x + s[p + m..]);
      FeedConcat(ALL_ONES, s[..p], y + s[p + m..]);
      FeedConcat(c, x, s[p + m..]);
      FeedConcat(c, y, s[p + m..]);
      FeedInjective(FeedBits(c, x), FeedBits(c, y), s[p + m..]);
      WindowInjective(c, x, y);
      BitsInjective(a, b);
      assert false;
    }
  }

  /** In bytes: a change confined to four consecutive bytes is always seen. */
  lemma CrcDetectsFourBytes(pre: seq<byte>, x: seq<byte>, y: seq<byte>, post: seq<byte>)
    requires |x| == |y| <= 4 && x != y
    ensures Crc32(pre + x + post) != Crc32(pre + y + post)
  {
    hide Crc32, Bits;
    var a, b := pre + x + post, pre + y + post;
    BitsConcat(pre + x, post);
    BitsConcat(pre, x);
    BitsConcat(pre + y, post);
    BitsConcat(pre, y);
    var n := |pre|;
    assert a[n..n + |x|] == x && b[n..n + |x|] == y;
    assert Bits(a)[..8 * n] == Bits(pre) && Bits(b)[..8 * n] == Bits(pre);
    assert Bits(a)[8 * n + 8 * |x|..] == Bits(post) && Bits(b)[8 * n + 8 * |x|..] == Bits(post);
    CrcDetectsBurst(a, b, 8 * n, 8 * |x|);
  }

  // ----- the CRC is a remainder -----

  /** x^32 + x^26 + x^23 + x^22 + x^16 + x^12 + x^11 + x^10 + x^8 + x^7 + x^5 + x^4 +
      x^2 + x + 1, the generator of ITU-T V.42. */
  const GENERATOR: nat := 0x1_04c1_1db7

  /** Product of polynomials over two elements, coefficients as bits. */
  function Product(q: nat, g: nat): (p: nat) {
    if q == 0 then 0 else Xor(2 * Product(q / 2, g), if q % 2 == 1 then g else 0)
  }

  /** A bit string as a polynomial, the first bit its highest coefficient. */
  function Poly(s: seq<bit>): (v: nat) {
    if |s| == 0 then 0 else ShiftLeft(s[0], |s| - 1) + Poly(s[1..])
  }

  lemma {:induction false} PolyBound(s: seq<bit>)
    ensures Poly(s) < Pow2(|s|)
  {
    if |s| > 0 {
      PolyBound(s[1..]);
      ShiftBit(s[0], |s| - 1);
    }
  }

  lemma {:induction false} ShiftBit(b: bit, k: nat)
    ensures ShiftLeft(b, k) == if b == 1 then Pow2(k) else 0
  {
    if k > 0 { ShiftBit(b, k - 1); }
  }

  lemma {:induction false} ShiftTwice(a: nat, j: nat, k: nat)
    ensures ShiftLeft(ShiftLeft(a, j), k) == ShiftLeft(a, j + k)
    decreases k
  {
    if k > 0 { ShiftTwice(a, j, k - 1); }
  }

  lemma {:induction false} ShiftXor(a: nat, b: nat, k: nat)
    ensures ShiftLeft(Xor(a, b), k) == Xor(ShiftLeft(a, k), ShiftLeft(b, k))
    decreases k
  {
    hide Xor;
    if k > 0 {
      ShiftXor(a, b, k - 1);
      XorBit(ShiftLeft(a, k - 1), ShiftLeft(b, k - 1), 0, 0);
    }
  }

  /** Adding what is below bit `k` is XORing it. */
  lemma ShiftPlus(a: nat, x: nat, k: nat)
    requires x < Pow2(k)
    ensures ShiftLeft(a, k) + x == Xor(ShiftLeft(a, k), x)
  {
    hide Xor;
    XorShift(a, 0, 0, x, k);
    ShiftZero(k);
    XorZero(a);
    XorZero(x);
  }

  lemma {:induction false} ShiftZero(k: nat)
    ensures ShiftLeft(0, k) == 0
  {
    if k > 0 { ShiftZero(k - 1); }
  }

  function Scaled(b: nat, g: nat): (r: nat) { if b == 1 then g else 0 }

  lemma ProductBit(q: nat, b: bit, g: nat)
    ensures Product(2 * q + b, g) == Xor(2 * Product(q, g), Scaled(b, g))
  {
    hide Xor;
    if 2 * q + b == 0 {
      XorZero(0);
    } else {
      assert (2 * q + b) / 2 == q && (2 * q + b) % 2 == b;
    }
  }

  lemma {:induction false} ProductXor(p: nat, q: nat, g: nat)
    ensures Product(Xor(p, q), g) == Xor(Product(p, g), Product(q, g))
    decreases p + q
  {
    hide Xor, Product;
    if p == 0 || q == 0 {
      XorZero(p);
      XorZero(q);
      assert Product(0, g) == 0 by { ProductOfNone(g); }
      XorZero(Product(p, g));
      XorZero(Product(q, g));
    } else {
      Halves(p);
      Halves(q);
      ProductXor(p / 2, q / 2, g);
      var x, y := p % 2, q % 2;
      XorBit(p / 2, q / 2, x, y);
      ProductBit(p / 2, x, g);
      ProductBit(q / 2, y, g);
      ProductBit(Xor(p / 2, q / 2), if x == y then 0 else 1, g);
      ScaledXor(x, y, g);
      XorBit(Product(p / 2, g), Product(q / 2, g), 0, 0);
      Medial(2 * Product(p / 2, g), 2 * Product(q / 2, g), Scaled(x, g), Scaled(y, g));
    }
  }

  lemma ProductOfNone(g: nat)
    ensures Product(0, g) == 0
  {}

  lemma ScaledXor(x: bit, y: bit, g: nat)
    ensures Scaled(if x == y then 0 else 1, g) == Xor(Scaled(x, g), Scaled(y, g))
  {
    hide Xor;
    XorZero(g);
    XorZero(0);
  }

  lemma {:induction false} ProductShift(q: nat, k: nat, g: nat)
    ensures Product(ShiftLeft(q, k), g) == ShiftLeft(Product(q, g), k)
    decreases k
  {
    hide Xor, Product;
    if k > 0 {
      ProductShift(q, k - 1, g);
      ProductBit(ShiftLeft(q, k - 1), 0, g);
      XorZero(2 * Product(ShiftLeft(q, k - 1), g));
    }
  }

  lemma ProductOfBit(b: bit, g: nat)
    ensures Product(b, g) == Scaled(b, g)
  {
    hide Xor;
    ProductBit(0, b, g);
    XorZero(Scaled(b, g));
  }

  /** `n` bits in reverse: the lowest bit of `v` becomes the highest. */
  function Reversed(v: nat, n: nat): (r: nat)
    decreases n
  {
    if n == 0 then 0 else ShiftLeft(v % 2, n - 1) + Reversed(v / 2, n - 1)
  }

  lemma {:induction false} ReversedIsPoly(v: nat, n: nat)
    ensures Reversed(v, n) == Poly(BitsOf(v, n))
    decreases n
  {
    if n > 0 {
      ReversedIsPoly(v / 2, n - 1);
      assert BitsOf(v, n)[1..] == BitsOf(v / 2, n - 1);
    }
  }

  lemma ReversedBound(v: nat, n: nat)
    ensures Reversed(v, n) < Pow2(n)
  {
    ReversedIsPoly(v, n);
    PolyBound(BitsOf(v, n));
  }

  lemma {:induction false} ReversedXor(a: nat, b: nat, n: nat)
    ensures Reversed(Xor(a, b), n) == Xor(Reversed(a, n), Reversed(b, n))
    decreases n
  {
    hide Xor;
    if n == 0 {
      XorZero(0);
    } else {
      Halves(a);
      Halves(b);
      XorBit(a / 2, b / 2, a % 2, b % 2);
      ReversedXor(a / 2, b / 2, n - 1);
      ReversedBound(a / 2, n - 1);
      ReversedBound(b / 2, n - 1);
      XorShift(a % 2, b % 2, Reversed(a / 2, n - 1), Reversed(b / 2, n - 1), n - 1);
      XorOfBits(a % 2, b % 2);
    }
  }

  lemma XorOfBits(x: bit, y: bit)
    ensures Xor(x, y) == if x == y then 0 else 1
  {
    XorBit(0, 0, x, y);
    XorZero(0);
  }

  /** A leading zero becomes a trailing one. */
  lemma {:induction false} ReversedShort(v: nat, n: nat)
    requires v < Pow2(n)
    ensures Reversed(v, n + 1) == 2 * Reversed(v, n)
    decreases n
  {
    if n == 0 {
      assert v == 0 && Reversed(0, 1) == ShiftLeft(0, 0) + Reversed(0, 0);
    } else {
      ReversedShort(v / 2, n - 1);
      assert ShiftLeft(v % 2, n) == 2 * ShiftLeft(v % 2, n - 1);
    }
  }

  lemma {:induction false} ShiftSum(a: nat, b: nat, k: nat)
    ensures ShiftLeft(a + b, k) == ShiftLeft(a, k) + ShiftLeft(b, k)
  {
    if k > 0 { ShiftSum(a, b, k - 1); }
  }

  /** The same, bit by bit into an accumulator. */
  function Mirrored(v: nat, n: nat, acc: nat): (r: nat)
    decreases n
  {
    if n == 0 then acc else Mirrored(v / 2, n - 1, 2 * acc + v % 2)
  }

  lemma {:induction false} MirroredIs(v: nat, n: nat, acc: nat)
    ensures Mirrored(v, n, acc) == ShiftLeft(acc, n) + Reversed(v, n)
    decreases n
  {
    if n > 0 {
      MirroredIs(v / 2, n - 1, 2 * acc + v % 2);
      ShiftSum(2 * acc, v % 2, n - 1);
      ShiftTwice(acc, 1, n - 1);
      assert ShiftLeft(acc, 1) == 2 * acc;
    }
  }

  lemma MirrorBit(w: nat, b: bit, n: nat, acc: nat)
    ensures Mirrored(2 * w + b, n + 1, acc) == Mirrored(w, n, 2 * acc + b)
  {
    assert (2 * w + b) / 2 == w && (2 * w + b) % 2 == b;
  }

  lemma MirrorNibble(w: nat, a: bit, b: bit, c: bit, d: bit, n: nat, acc: nat)
    ensures Mirrored(16 * w + 8 * d + 4 * c + 2 * b + a, n + 4, acc)
         == Mirrored(w, n, 16 * acc + 8 * a + 4 * b + 2 * c + d)
  {
    hide Mirrored;
    MirrorBit(2 * (2 * (2 * w + d) + c) + b, a, n + 3, acc);
    MirrorBit(2 * (2 * w + d) + c, b, n + 2, 2 * acc + a);
    MirrorBit(2 * w + d, c, n + 1, 2 * (2 * acc + a) + b);
    MirrorBit(w, d, n, 2 * (2 * (2 * acc + a) + b) + c);
  }

  lemma MirrorEnd(acc: nat)
    ensures Mirrored(0, 0, acc) == acc
  {}

  /** The register polynomial is the generator without its highest term, reversed. */
  lemma PolyIsGenerator()
    ensures Reversed(POLY, 32) == 0x04c1_1db7
  {
    hide Mirrored, Reversed, ShiftLeft;
    MirroredIs(POLY, 32, 0);
    ShiftZero(32);
    MirrorNibble(0xedb_8832, 0, 0, 0, 0, 28, 0);
    MirrorNibble(0xed_b883, 0, 1, 0, 0, 24, 0);
    MirrorNibble(0xe_db88, 1, 1, 0, 0, 20, 0x4);
    MirrorNibble(0xedb8, 0, 0, 0, 1, 16, 0x4c);
    MirrorNibble(0xedb, 0, 0, 0, 1, 12, 0x4c1);
    MirrorNibble(0xed, 1, 1, 0, 1, 8, 0x4c11);
    MirrorNibble(0xe, 1, 0, 1, 1, 4, 0x4_c11d);
    MirrorNibble(0, 0, 1, 1, 1, 0, 0x4c_11db);
    MirrorEnd(0x04c1_1db7);
  }

  lemma OnesAreSymmetric()
    ensures Reversed(ALL_ONES, 32) == 0xffff_ffff
  {
    hide Mirrored, Reversed, ShiftLeft;
    MirroredIs(ALL_ONES, 32, 0);
    ShiftZero(32);
    MirrorNibble(0xfffffff, 1, 1, 1, 1, 28, 0x0);
    MirrorNibble(0xffffff, 1, 1, 1, 1, 24, 0xf);
    MirrorNibble(0xfffff, 1, 1, 1, 1, 20, 0xff);
    MirrorNibble(0xffff, 1, 1, 1, 1, 16, 0xfff);
    MirrorNibble(0xfff, 1, 1, 1, 1, 12, 0xffff);
    MirrorNibble(0xff, 1, 1, 1, 1, 8, 0xfffff);
    MirrorNibble(0xf, 1, 1, 1, 1, 4, 0xffffff);
    MirrorNibble(0x0, 1, 1, 1, 1, 0, 0xfffffff);
    MirrorEnd(0xffff_ffff);
  }

  lemma ReversedFirst(v: nat, n: nat)
    requires n > 0
    ensures Reversed(v, n) == ShiftLeft(v % 2, n - 1) + Reversed(v / 2, n - 1)
    ensures 2 * Reversed(v, n) == ShiftLeft(v % 2, n) + 2 * Reversed(v / 2, n - 1)
  {}

  lemma GeneratorIsPoly()
    ensures GENERATOR == Xor(0x04c1_1db7, ShiftLeft(1, 32))
  {
    hide Xor, ShiftLeft, Pow2;
    Pow2Of32();
    ShiftBit(1, 32);
    ShiftPlus(1, 0x04c1_1db7, 32);
    XorCommutes(ShiftLeft(1, 32), 0x04c1_1db7);
  }

  /** One shift of the register multiplies by x and takes off the generator if the
      highest coefficient overflows. */
  lemma StepDivides(u: u32)
    ensures 2 * Reversed(u, 32) == Xor(Reversed(Step(u), 32), Scaled(u % 2, GENERATOR))
  {
    hide Xor, Reversed, ShiftLeft, Pow2;
    var h, e := u / 2, u % 2;
    Pow2Of31();
    Pow2Of32();
    ReversedFirst(u, 32);
    ReversedShort(h, 31);
    ReversedBound(h, 32);
    ShiftPlus(e, Reversed(h, 32), 32);
    XorCommutes(ShiftLeft(e, 32), Reversed(h, 32));
    ReversedXor(h, if e == 1 then POLY else 0, 32);
    if e == 1 {
      PolyIsGenerator();
      GeneratorIsPoly();
      TakeOff(Reversed(h, 32), 0x04c1_1db7, ShiftLeft(1, 32));
    } else {
      ReversedZero(32);
      XorZero(Reversed(h, 32));
      ShiftZero(32);
    }
  }

  lemma TakeOff(r: nat, p: nat, top: nat)
    ensures Xor(Xor(r, p), Xor(p, top)) == Xor(r, top)
  {
    hide Xor;
    XorAssociates(r, p, Xor(p, top));
    XorAssociates(p, p, top);
    XorZero(p);
    XorZero(top);
  }

  lemma {:induction false} ReversedZero(n: nat)
    ensures Reversed(0, n) == 0
    decreases n
  {
    if n > 0 {
      ReversedZero(n - 1);
      ShiftZero(n - 1);
    }
  }

  /** Equal up to a multiple `q` of the generator. */
  predicate Congruent(a: nat, b: nat, q: nat) { a == Xor(b, Product(q, GENERATOR)) }

  lemma CongruentShift(a: nat, b: nat, q: nat, k: nat)
    requires Congruent(a, b, q)
    ensures Congruent(ShiftLeft(a, k), ShiftLeft(b, k), ShiftLeft(q, k))
  {
    hide Xor, Product;
    ShiftXor(b, Product(q, GENERATOR), k);
    ProductShift(q, k, GENERATOR);
  }

  lemma CongruentXor(a: nat, b: nat, q: nat, x: nat)
    requires Congruent(a, b, q)
    ensures Congruent(Xor(a, x), Xor(b, x), q)
  {
    hide Xor, Product;
    var p := Product(q, GENERATOR);
    XorAssociates(b, p, x);
    XorCommutes(p, x);
    XorAssociates(b, x, p);
  }

  lemma CongruentChain(a: nat, b: nat, c: nat, q: nat, r: nat)
    requires Congruent(a, b, q) && Congruent(b, c, r)
    ensures Congruent(a, c, Xor(q, r))
  {
    hide Xor, Product;
    ProductXor(q, r, GENERATOR);
    XorAssociates(c, Product(r, GENERATOR), Product(q, GENERATOR));
    XorCommutes(Product(r, GENERATOR), Product(q, GENERATOR));
  }

  lemma StepCongruent(u: u32)
    ensures Congruent(ShiftLeft(Reversed(u, 32), 1), Reversed(Step(u), 32), u % 2)
  {
    hide Xor, Product, Step, Reversed, Scaled;
    assert ShiftLeft(Reversed(u, 32), 1) == 2 * Reversed(u, 32);
    StepDivides(u);
    ProductOfBit(u % 2, GENERATOR);
  }

  lemma BitOnTop(c: u32, b: bit)
    ensures Reversed(Xor32(c, b), 32) == Xor(Reversed(c, 32), ShiftLeft(b, 31))
  {
    hide Xor, Reversed, ShiftLeft;
    ReversedXor(c, b, 32);
    ReversedFirst(b, 32);
    ReversedZero(31);
  }

  /** Feeding bits: the register holds the remainder of everything fed so far. */
  lemma {:induction false} FeedDivides(c: u32, s: seq<bit>) returns (q: nat)
    ensures Congruent(Xor(ShiftLeft(Reversed(c, 32), |s|), ShiftLeft(Poly(s), 32)), Reversed(FeedBits(c, s), 32), q)
    decreases |s|
  {
    hide Xor, Product, Step, Reversed, Xor32;
    if |s| == 0 {
      q := 0;
      ShiftZero(32);
      ProductOfNone(GENERATOR);
      XorZero(Reversed(c, 32));
    } else {
      var n, u := |s| - 1, Xor32(c, s[0]);
      var rest := ShiftLeft(Poly(s[1..]), 32);
      var q' := FeedDivides(Step(u), s[1..]);
      StepCongruent(u);
      CongruentShift(ShiftLeft(Reversed(u, 32), 1), Reversed(Step(u), 32), u % 2, n);
      CongruentXor(ShiftLeft(ShiftLeft(Reversed(u, 32), 1), n), ShiftLeft(Reversed(Step(u), 32), n),
                   ShiftLeft(u % 2, n), rest);
      FirstBitOut(c, s);
      CongruentChain(Xor(ShiftLeft(ShiftLeft(Reversed(u, 32), 1), n), rest),
                     Xor(ShiftLeft(Reversed(Step(u), 32), n), rest), Reversed(FeedBits(c, s), 32),
                     ShiftLeft(u % 2, n), q');
      q := Xor(ShiftLeft(u % 2, n), q');
    }
  }

  lemma FirstBitOut(c: u32, s: seq<bit>)
    requires |s| > 0
    ensures Xor(ShiftLeft(ShiftLeft(Reversed(Xor32(c, s[0]), 32), 1), |s| - 1), ShiftLeft(Poly(s[1..]), 32))
         == Xor(ShiftLeft(Reversed(c, 32), |s|), ShiftLeft(Poly(s), 32))
  {
    hide Xor, Reversed, Xor32, Poly, ShiftLeft;
    var n := |s| - 1;
    var r := Reversed(c, 32);
    BitOnTop(c, s[0]);
    ShiftTwice(Reversed(Xor32(c, s[0]), 32), 1, n);
    ShiftXor(r, ShiftLeft(s[0], 31), n + 1);
    ShiftTwice(s[0], 31, n + 1);
    PolyFirst(s);
    ShiftXor(ShiftLeft(s[0], n), Poly(s[1..]), 32);
    ShiftTwice(s[0], n, 32);
    XorAssociates(ShiftLeft(r, n + 1), ShiftLeft(s[0], n + 32), ShiftLeft(Poly(s[1..]), 32));
  }

  lemma PolyFirst(s: seq<bit>)
    requires |s| > 0
    ensures Poly(s) == Xor(ShiftLeft(s[0], |s| - 1), Poly(s[1..]))
  {
    PolyBound(s[1..]);
    ShiftPlus(s[0], Poly(s[1..]), |s| - 1);
  }

  /** CRC-32 as ITU-T V.42 defines it (section 15.5 of RFC 5389 refers to it): take
      the message's bits, lowest of each byte first, as a polynomial times x^32; add
      32 ones times x^n; the remainder modulo the generator, complemented and read
      lowest bit first, is the CRC. */
  lemma CrcIsRemainder(buf: seq<byte>) returns (quotient: nat)
    ensures var n, remainder := 8 * |buf|, Reversed(0xffff_ffff - Crc32(buf), 32);
            && remainder < 0x1_0000_0000
            && Xor(ShiftLeft(0xffff_ffff, n), ShiftLeft(Poly(Bits(buf)), 32))
               == Xor(remainder, Product(quotient, 0x1_04c1_1db7))
  {
    hide Xor, Product, Reversed, FeedBits, Poly, Bits, ShiftLeft, Pow2;
    RegisterIsFeed(ALL_ONES, buf);
    quotient := FeedDivides(ALL_ONES, Bits(buf));
    OnesAreSymmetric();
    ReversedBound(0xffff_ffff - Crc32(buf), 32);
    Pow2Of32();
  }
}
