/** fieldElement of polyval.go: an element of GF(2^128) for POLYVAL, held
    as two little-endian 64-bit words, with its byte encoding, addition,
    Karatsuba multiplication with Montgomery reduction, and doubling. */
module Field {
  import opened Bytes
  import opened CarryLess

  /** fieldElement{hi, lo}: the polynomial with coefficients of x^64..x^127
      in `hi` and of x^0..x^63 in `lo`. */
  datatype FieldElement = FieldElement(hi: bv64, lo: bv64)

  const Zero := FieldElement(0, 0)

  /** The reduction constant of mul: the low word of x^128 + x^127 + x^126
      + x^121 + 1 shifted so that x^127 is its top bit. */
  const Poly: bv64 := 0xc200000000000000

  /** The same element viewed as a polynomial of CarryLess. */
  function ToPoly(x: FieldElement): U128 { U128(x.hi, x.lo) }

  /** setBytes: lo from p[0:8] and hi from p[8:16], both little-endian.
      The Go slicing panics on a shorter p; every caller passes a 16-byte
      block, so the requires excludes no call that can happen. */
  function SetBytes(p: seq<Byte>): FieldElement
    requires |p| >= 16
  {
    FieldElement(GetLE64(p[8..16]), GetLE64(p[0..8]))
  }

  /** bytes: the 16-byte little-endian encoding. */
  function ToBytes(x: FieldElement): (p: Block)
  {
    PutLE64(x.lo) + PutLE64(x.hi)
  }

  /** Decoding an encoding gives the element back. */
  lemma SetBytesToBytes(x: FieldElement)
    ensures SetBytes(ToBytes(x)) == x
  {
    var p := ToBytes(x);
    assert p[0..8] == PutLE64(x.lo);
    assert p[8..16] == PutLE64(x.hi);
    GetPutLE64(x.lo);
    GetPutLE64(x.hi);
  }

  /** Encoding a decoded element gives back the first 16 bytes. */
  lemma ToBytesSetBytes(p: seq<Byte>)
    requires |p| >= 16
    ensures ToBytes(SetBytes(p)) == p[..16]
  {
    PutGetLE64(p[0..8]);
    PutGetLE64(p[8..16]);
    assert p[..16] == p[0..8] + p[8..16];
  }

  /** Encoding is injective. */
  lemma ToBytesInjective(x: FieldElement, y: FieldElement)
    ensures ToBytes(x) == ToBytes(y) <==> x == y
  {
    if ToBytes(x) == ToBytes(y) {
      SetBytesToBytes(x);
      SetBytesToBytes(y);
    }
  }

  /** xor: addition in GF(2^128). */
  function Xor(x: FieldElement, y: FieldElement): FieldElement
  {
    FieldElement(Xor64(x.hi, y.hi), Xor64(x.lo, y.lo))
  }

  /** Decoding commutes with addition. */
  lemma SetBytesXor(p: Block, q: Block)
    ensures SetBytes(XorBytes(p, q)) == Xor(SetBytes(p), SetBytes(q))
  {
    var r := XorBytes(p, q);
    calc {
      SetBytes(r).lo;
      GetLE64(r[0..8]);
      { assert r[0..8] == XorBytes(p[0..8], q[0..8]); }
      GetLE64(XorBytes(p[0..8], q[0..8]));
      { GetLE64Xor(p[0..8], q[0..8]); }
      Xor64(GetLE64(p[0..8]), GetLE64(q[0..8]));
    }
    calc {
      SetBytes(r).hi;
      GetLE64(r[8..16]);
      { assert r[8..16] == XorBytes(p[8..16], q[8..16]); }
      GetLE64(XorBytes(p[8..16], q[8..16]));
      { GetLE64Xor(p[8..16], q[8..16]); }
      Xor64(GetLE64(p[8..16]), GetLE64(q[8..16]));
    }
  }

  /** Addition is commutative and associative, Zero is its identity and
      every element is its own inverse. */
  lemma XorComm(x: FieldElement, y: FieldElement)
    ensures Xor(x, y) == Xor(y, x)
  {
    Xor64Comm(x.hi, y.hi);
    Xor64Comm(x.lo, y.lo);
  }

  lemma XorAssoc(x: FieldElement, y: FieldElement, z: FieldElement)
    ensures Xor(Xor(x, y), z) == Xor(x, Xor(y, z))
  {
    Xor64Assoc(x.hi, y.hi, z.hi);
    Xor64Assoc(x.lo, y.lo, z.lo);
  }

  lemma XorZero(x: FieldElement)
    ensures Xor(x, Zero) == x && Xor(Zero, x) == x
  {
    Xor64Zero(x.hi);
    Xor64Zero(x.lo);
  }

  lemma XorSelf(x: FieldElement)
    ensures Xor(x, x) == Zero
  {
    Xor64Self(x.hi);
    Xor64Self(x.lo);
  }

  // Multiplication.

  /** The 256-bit product [X3:X2:X1:X0] of mul, one 64-bit limb each. */
  datatype Product = Product(x3: bv64, x2: bv64, x1: bv64, x0: bv64)

  /** The limbs exactly as mul computes them: three ctmul calls, the middle
      one on the sums of the halves, with H and L added back into the
      middle limbs (Karatsuba). */
  function Karatsuba(x: FieldElement, y: FieldElement): Product
  {
    var h := CtMul(x.hi, y.hi);
    var l := CtMul(x.lo, y.lo);
    var m := CtMul(Xor64(x.hi, x.lo), Xor64(y.hi, y.lo));
    Product(h.hi,
            Xor64(Xor64(Xor64(h.lo, m.hi), h.hi), l.hi),
            Xor64(Xor64(Xor64(l.hi, m.lo), h.lo), l.lo),
            l.lo)
  }

  /** The schoolbook product the comment of mul starts from:
      x1*y1 * x^128 + (x1*y0 + x0*y1) * x^64 + x0*y0. */
  function Schoolbook(x: FieldElement, y: FieldElement): Product
  {
    var h := CtMul(x.hi, y.hi);
    var l := CtMul(x.lo, y.lo);
    var mid := Add(CtMul(x.hi, y.lo), CtMul(x.lo, y.hi));
    Product(h.hi, Xor64(h.lo, mid.hi), Xor64(l.hi, mid.lo), l.lo)
  }

  /** The word identity behind Karatsuba: adding H and L back into the
      middle product leaves the two cross terms,
      ((a + ((h + c1) + (c2 + l))) + h) + l == a + (c1 + c2). */
  lemma MiddleWord(a: bv64, h: bv64, c1: bv64, c2: bv64, l: bv64)
    ensures Xor64(Xor64(Xor64(a, Xor64(Xor64(h, c1), Xor64(c2, l))), h), l)
         == Xor64(a, Xor64(c1, c2))
  {
    var m := Xor64(Xor64(h, c1), Xor64(c2, l));
    calc {
      Xor64(Xor64(Xor64(a, m), h), l);
      { Xor64Assoc(Xor64(a, m), h, l); }
      Xor64(Xor64(a, m), Xor64(h, l));
      { Xor64Assoc(a, m, Xor64(h, l)); }
      Xor64(a, Xor64(m, Xor64(h, l)));
      { Xor64Swap(h, c1, c2, l);
        Xor64Comm(Xor64(h, l), Xor64(c1, c2));
        Xor64Cancel(Xor64(c1, c2), Xor64(h, l)); }
      Xor64(a, Xor64(c1, c2));
    }
  }

  /** Karatsuba's three multiplications give the schoolbook product. */
  lemma KaratsubaIsSchoolbook(x: FieldElement, y: FieldElement)
    ensures Karatsuba(x, y) == Schoolbook(x, y)
  {
    var h := CtMul(x.hi, y.hi);
    var l := CtMul(x.lo, y.lo);
    var c1, c2 := CtMul(x.hi, y.lo), CtMul(x.lo, y.hi);
    Bilinear(x.hi, x.lo, y.hi, y.lo);
    MiddleWord(h.lo, h.hi, c1.hi, c2.hi, l.hi);
    MiddleWord(l.hi, h.lo, c1.lo, c2.lo, l.lo);
  }

  /** Gueron's Montgomery reduction of a 256-bit product by
      x^128 + x^127 + x^126 + x^121 + 1, as in mul: two folds of the low
      limbs through ctmul by Poly. */
  function Reduce(p: Product): FieldElement
  {
    var a := CtMul(p.x0, Poly);
    var b1 := Xor64(p.x0, a.hi);
    var b0 := Xor64(p.x1, a.lo);
    var c := CtMul(b0, Poly);
    var d1 := Xor64(b0, c.hi);
    var d0 := Xor64(b1, c.lo);
    FieldElement(Xor64(d1, p.x3), Xor64(d0, p.x2))
  }

  /** A product whose low 128 bits are zero is already a multiple of
      x^128: the reduction returns its high half. */
  lemma ReduceHighHalf(x3: bv64, x2: bv64)
    ensures Reduce(Product(x3, x2, 0, 0)) == FieldElement(x3, x2)
  {
    ZeroLeft(Poly);
  }

  /** mul */
  function Mul(x: FieldElement, y: FieldElement): FieldElement
  {
    Reduce(Karatsuba(x, y))
  }

  /** Zero annihilates on both sides. */
  lemma MulZero(x: FieldElement)
    ensures Mul(x, Zero) == Zero
  {
    ZeroLeft(Poly);
  }

  lemma ZeroMul(x: FieldElement)
    ensures Mul(Zero, x) == Zero
  {
    ZeroLeft(Poly);
    ZeroLeft(x.hi);
    ZeroLeft(x.lo);
    ZeroLeft(Xor64(x.hi, x.lo));
  }

  /** mul is commutative. */
  lemma MulComm(x: FieldElement, y: FieldElement)
    ensures Mul(x, y) == Mul(y, x)
  {
    Comm(x.hi, y.hi);
    Comm(x.lo, y.lo);
    Comm(Xor64(x.hi, x.lo), Xor64(y.hi, y.lo));
  }

  /** double: multiplication by x in GF(2^128). The bit shifted out at
      x^127 is folded back as x^128 = x^127 + x^126 + x^121 + 1. */
  function Double(x: FieldElement): FieldElement
  {
    FieldElement(DoubleHi(x.hi, x.lo), DoubleLo(x.hi, x.lo))
  }

  /** The high word of double: the shifted word with the carried-out bit
      h folded in at bits 63, 62 and 57. */
  function DoubleHi(hi: bv64, lo: bv64): bv64
  {
    var h := hi >> 63;
    var s := (hi << 1) | (lo >> 63);
    ((s ^ (h << 63)) ^ (h << 62)) ^ (h << 57)
  }

  /** The low word of double: the shifted word with h folded in at bit 0. */
  function DoubleLo(hi: bv64, lo: bv64): bv64
  {
    (lo << 1) ^ (hi >> 63)
  }

  lemma DoubleHiDef(hi: bv64, lo: bv64)
    ensures DoubleHi(hi, lo) == ((((hi << 1) | (lo >> 63)) ^ ((hi >> 63) << 63)) ^ ((hi >> 63) << 62)) ^ ((hi >> 63) << 57)
  {
  }

  lemma DoubleLoDef(hi: bv64, lo: bv64)
    ensures DoubleLo(hi, lo) == (lo << 1) ^ (hi >> 63)
  {
  }

  /** With the top coefficient clear, doubling is the plain shift. */
  lemma DoubleNoCarry(x: FieldElement)
    requires x.hi >> 63 == 0
    ensures ToPoly(Double(x)) == Shl1(ToPoly(x))
  {
    DoubleHiNoCarry(x.hi, x.lo);
    DoubleLoNoCarry(x.hi, x.lo);
  }

  /** With the top coefficient set, x^128 is replaced by
      x^127 + x^126 + x^121 + 1 (bits 63, 62 and 57 of hi, bit 0 of lo). */
  lemma DoubleCarry(x: FieldElement)
    requires x.hi >> 63 == 1
    ensures ToPoly(Double(x)) == Add(Shl1(ToPoly(x)), U128(Poly, 1))
  {
    DoubleHiCarry(x.hi, x.lo);
    DoubleLoCarry(x.hi, x.lo);
  }

  lemma DoubleHiNoCarry(hi: bv64, lo: bv64)
    requires hi >> 63 == 0
    ensures DoubleHi(hi, lo) == ShlHi(hi, lo)
  {
    DoubleHiDef(hi, lo);
    ShlHiDef(hi, lo);
    DoubleHiNoCarryWords(hi, lo, DoubleHi(hi, lo), ShlHi(hi, lo));
  }

  lemma DoubleLoNoCarry(hi: bv64, lo: bv64)
    requires hi >> 63 == 0
    ensures DoubleLo(hi, lo) == ShlLo(lo)
  {
    DoubleLoDef(hi, lo);
    ShlLoDef(lo);
    DoubleLoNoCarryWords(hi, lo, DoubleLo(hi, lo), ShlLo(lo));
  }

  lemma DoubleHiCarry(hi: bv64, lo: bv64)
    requires hi >> 63 == 1
    ensures DoubleHi(hi, lo) == Xor64(ShlHi(hi, lo), Poly)
  {
    var r, s := DoubleHi(hi, lo), ShlHi(hi, lo);
    var t := Xor64(s, Poly);
    DoubleHiDef(hi, lo);
    ShlHiDef(hi, lo);
    Xor64Def(s, Poly);
    DoubleHiCarryWords(hi, lo, r, s, t);
  }

  lemma DoubleLoCarry(hi: bv64, lo: bv64)
    requires hi >> 63 == 1
    ensures DoubleLo(hi, lo) == Xor64(ShlLo(lo), 1)
  {
    var r, s := DoubleLo(hi, lo), ShlLo(lo);
    var t := Xor64(s, 1);
    DoubleLoDef(hi, lo);
    ShlLoDef(lo);
    Xor64Def(s, 1);
    DoubleLoCarryWords(hi, lo, r, s, t);
  }

  // The masked xors of double on the two words, for each value of the
  // bit shifted out.

  lemma DoubleHiNoCarryWords(hi: bv64, lo: bv64, r: bv64, s: bv64)
    requires hi >> 63 == 0
    requires r == ((((hi << 1) | (lo >> 63)) ^ ((hi >> 63) << 63)) ^ ((hi >> 63) << 62)) ^ ((hi >> 63) << 57)
    requires s == (hi << 1) | (lo >> 63)
    ensures r == s
  {
  }

  lemma DoubleLoNoCarryWords(hi: bv64, lo: bv64, r: bv64, s: bv64)
    requires hi >> 63 == 0
    requires r == (lo << 1) ^ (hi >> 63)
    requires s == lo << 1
    ensures r == s
  {
  }

  lemma DoubleHiCarryWords(hi: bv64, lo: bv64, r: bv64, s: bv64, t: bv64)
    requires hi >> 63 == 1
    requires r == ((((hi << 1) | (lo >> 63)) ^ ((hi >> 63) << 63)) ^ ((hi >> 63) << 62)) ^ ((hi >> 63) << 57)
    requires s == (hi << 1) | (lo >> 63)
    requires t == s ^ Poly
    ensures r == t
  {
  }

  lemma DoubleLoCarryWords(hi: bv64, lo: bv64, r: bv64, s: bv64, t: bv64)
    requires hi >> 63 == 1
    requires r == (lo << 1) ^ (hi >> 63)
    requires s == lo << 1
    requires t == s ^ 1
    ensures r == t
  {
  }
}
