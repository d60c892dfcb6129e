/** Arithmetic in GF(2^8), the field behind galois_region_xor,
    galois_w08_region_multiply and galois_single_divide for w = 8.  The field
    is built on the polynomial x^8 + x^4 + x^3 + x^2 + 1 (0x11d), the default
    polynomial of GF-Complete for w = 8.  Addition is XOR; a block is a byte
    region.  The field laws the coupling transforms rely on are proved here
    for the constants the transforms use. */
module Gf {

  type Byte = bv8
  type Block = seq<Byte>

  /** All ones when bit t of a is set, zero otherwise. */
  function BitMask(a: Byte, t: bv8): Byte
    requires t < 8
  {
    0 - ((a >> t) & 1)
  }

  /** Multiplication by the generator x, reduced modulo 0x11d: when the top
      bit is shifted out, 0x1d is added back. */
  function XTime(b: Byte): Byte {
    (b << 1) ^ (0x1d & BitMask(b, 7))
  }

  /** Field product: the sum, over the bits 2^t set in a, of x^t * b. */
  function Mul(a: Byte, b: Byte): Byte {
    var b1 := XTime(b);
    var b2 := XTime(b1);
    var b3 := XTime(b2);
    var b4 := XTime(b3);
    var b5 := XTime(b4);
    var b6 := XTime(b5);
    var b7 := XTime(b6);
    (if a & 0x01 == 0 then 0 else b) ^
    (if a & 0x02 == 0 then 0 else b1) ^
    (if a & 0x04 == 0 then 0 else b2) ^
    (if a & 0x08 == 0 then 0 else b3) ^
    (if a & 0x10 == 0 then 0 else b4) ^
    (if a & 0x20 == 0 then 0 else b5) ^
    (if a & 0x40 == 0 then 0 else b6) ^
    (if a & 0x80 == 0 then 0 else b7)
  }

  function Square(c: Byte): Byte {
    Mul(c, c)
  }

  /** Multiplicative inverse, computed as c^254 (c^255 = 1 for c != 0). */
  function Inv(c: Byte): Byte {
    var c2 := Square(c);
    var c4 := Square(c2);
    var c8 := Square(c4);
    var c16 := Square(c8);
    var c32 := Square(c16);
    var c64 := Square(c32);
    var c128 := Square(c64);
    Mul(c2, Mul(c4, Mul(c8, Mul(c16, Mul(c32, Mul(c64, c128))))))
  }

  /** galois_single_divide(a, b, 8) for b != 0: a times the inverse of b. */
  function Divide(a: Byte, b: Byte): Byte
    requires b != 0
  {
    Mul(a, Inv(b))
  }

  /** galois_region_xor(src, dst, n): dst becomes dst XOR src, byte by byte. */
  function Xor(dst: Block, src: Block): (r: Block)
    requires |dst| == |src|
    ensures |r| == |dst|
  {
    if |dst| == 0 then [] else [dst[0] ^ src[0]] + Xor(dst[1..], src[1..])
  }

  /** galois_w08_region_multiply(src, c, n, dst, 0): dst becomes c * src. */
  function Scale(c: Byte, src: Block): (r: Block)
    ensures |r| == |src|
  {
    if |src| == 0 then [] else [Mul(c, src[0])] + Scale(c, src[1..])
  }

  lemma {:induction false} XorIndex(dst: Block, src: Block, x: nat)
    requires |dst| == |src| && x < |dst|
    ensures Xor(dst, src)[x] == dst[x] ^ src[x]
    decreases x
  {
    if x > 0 {
      XorIndex(dst[1..], src[1..], x - 1);
    }
  }

  lemma {:induction false} ScaleIndex(c: Byte, src: Block, x: nat)
    requires x < |src|
    ensures Scale(c, src)[x] == Mul(c, src[x])
    decreases x
  {
    if x > 0 {
      ScaleIndex(c, src[1..], x - 1);
    }
  }

  /** A block that is dst XOR src at every byte is Xor(dst, src). */
  lemma XorPointwise(dst: Block, src: Block, r: Block)
    requires |dst| == |src| == |r|
    requires forall x :: 0 <= x < |r| ==> r[x] == dst[x] ^ src[x]
    ensures r == Xor(dst, src)
  {
    forall x | 0 <= x < |r|
      ensures r[x] == Xor(dst, src)[x]
    {
      XorIndex(dst, src, x);
    }
  }

  /** Adding a block twice cancels it. */
  lemma XorCancel(u: Block, b: Block)
    requires |u| == |b|
    ensures Xor(Xor(u, b), u) == b
  {
    forall x | 0 <= x < |b|
      ensures Xor(Xor(u, b), u)[x] == b[x]
    {
      XorIndex(Xor(u, b), u, x);
      XorIndex(u, b, x);
    }
  }

  // ---------------------------------------------------------------------
  // Field facts, byte by byte.  Each is small enough to be decided on the
  // bits; the larger identities are chained from them.

  lemma MulOne(x: Byte)
    ensures Mul(1, x) == x
  {}

  lemma MulTwo(x: Byte)
    ensures Mul(2, x) == XTime(x)
  {}

  lemma XTimeLinear(x: Byte, y: Byte)
    ensures XTime(x ^ y) == XTime(x) ^ XTime(y)
  {}

  lemma XorSwap(a: Byte, b: Byte, c: Byte, d: Byte)
    ensures (a ^ b) ^ (c ^ d) == (a ^ c) ^ (b ^ d)
  {}

  /** 3 = 1 + 2 in GF(2^8). */
  lemma MulThree(x: Byte)
    ensures Mul(3, x) == x ^ Mul(2, x)
  {}

  lemma MulTwoLinear(x: Byte, y: Byte)
    ensures Mul(2, x ^ y) == Mul(2, x) ^ Mul(2, y)
  {
    MulTwo(x);
    MulTwo(y);
    MulTwo(x ^ y);
    XTimeLinear(x, y);
  }

  /** The value galois_single_divide(1, 3, 8) returns. */
  lemma InverseOfThree()
    ensures Divide(1, 3) == 244
  {
    InverseOfThreeValue();
  }

  lemma InverseOfThreeValue()
    ensures Inv(3) == 244
  {}

  lemma ThreeTimesInverse()
    ensures Mul(3, 244) == 1
  {}

  lemma CancelThree(x: Byte)
    ensures Mul(244, Mul(3, x)) == x
  {}

  /** (a + 2b) + (2a + b) = (a + b) + 2(a + b). */
  lemma RegroupPair(a: Byte, b: Byte)
    ensures (a ^ Mul(2, b)) ^ (Mul(2, a) ^ b) == (a ^ b) ^ Mul(2, a ^ b)
  {
    XorSwap(a, Mul(2, b), Mul(2, a), b);
    MulTwoLinear(a, b);
  }

  /** First half of the decoder's lower step: the sum of the two halves is
      3(a + b), and dividing by 3 leaves a + b. */
  lemma SolveFirstHalf(a: Byte, b: Byte)
    ensures Mul(244, (a ^ Mul(2, b)) ^ (Mul(2, a) ^ b)) == a ^ b
  {
    RegroupPair(a, b);
    MulThree(a ^ b);
    CancelThree(a ^ b);
  }

  /** Second half: (a + b) + (2a + b) = 3a. */
  lemma SolveSecondHalf(a: Byte, b: Byte)
    ensures Mul(244, (a ^ b) ^ (Mul(2, a) ^ b)) == a
  {
    MulThree(a);
    assert (a ^ b) ^ (Mul(2, a) ^ b) == Mul(3, a);
    CancelThree(a);
  }

  /** The decoder's lower step on one byte: from lower = a + 2b and
      upper = 2a + b, two rounds of "add upper, divide by 3" give a. */
  lemma SolveByte(a: Byte, b: Byte)
    ensures Mul(244, Mul(244, (a ^ Mul(2, b)) ^ (Mul(2, a) ^ b)) ^ (Mul(2, a) ^ b)) == a
  {
    SolveFirstHalf(a, b);
    SolveSecondHalf(a, b);
  }

  // The encoder's coupling constants e and the inverses of 1 + e.

  lemma InverseOf21() ensures Inv(1 ^ 20) == 62 {}
  lemma InverseOf19() ensures Inv(1 ^ 18) == 88 {}
  lemma InverseOf16() ensures Inv(1 ^ 17) == 216 {}
  lemma InverseOf17() ensures Inv(1 ^ 16) == 114 {}
  lemma InverseOf14() ensures Inv(1 ^ 15) == 93 {}

  lemma UncoupleBy20(a: Byte, b: Byte) ensures Mul(62, (a ^ b) ^ (b ^ Mul(20, a))) == a {}
  lemma UncoupleBy18(a: Byte, b: Byte) ensures Mul(88, (a ^ b) ^ (b ^ Mul(18, a))) == a {}
  lemma UncoupleBy17(a: Byte, b: Byte) ensures Mul(216, (a ^ b) ^ (b ^ Mul(17, a))) == a {}
  lemma UncoupleBy16(a: Byte, b: Byte) ensures Mul(114, (a ^ b) ^ (b ^ Mul(16, a))) == a {}
  lemma UncoupleBy15(a: Byte, b: Byte) ensures Mul(93, (a ^ b) ^ (b ^ Mul(15, a))) == a {}

  /** The encoder's pair (a + b, b + e*a) gives back a as (1 + e)^-1 times
      the sum of its halves, for every constant the encoder uses. */
  lemma UncoupleByte(e: Byte, a: Byte, b: Byte)
    requires e in {20, 18, 17, 16, 15}
    ensures Mul(Inv(1 ^ e), (a ^ b) ^ (b ^ Mul(e, a))) == a
  {
    if e == 20 {
      InverseOf21();
      UncoupleBy20(a, b);
    } else if e == 18 {
      InverseOf19();
      UncoupleBy18(a, b);
    } else if e == 17 {
      InverseOf16();
      UncoupleBy17(a, b);
    } else if e == 16 {
      InverseOf17();
      UncoupleBy16(a, b);
    } else {
      InverseOf14();
      UncoupleBy15(a, b);
    }
  }
}
