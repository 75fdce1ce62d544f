/** The carry-less 64x64 -> 128 multiply `ctmul` that polyval.go calls.
    Its body is generated code outside this model, so it is given here by
    its defining recurrence (shift-and-add over the bits of the second
    operand) and the algebra that `fieldElement.mul` relies on is proved
    from that definition: zero, one, bilinearity and commutativity.

    A 128-bit polynomial is kept as two 64-bit words, as `ctmul` returns
    it. Every bit operation is a function of plain words (`Xor64`,
    `ShlHi`, `ShlLo`), and every fact about words is proved once, in a
    lemma over word variables, from the unfolded definitions; the lemmas
    about polynomials then only combine those facts. */
module CarryLess {
  import opened Bytes

  /** A polynomial of degree below 128 over GF(2): `hi` holds the
      coefficients of x^64..x^127, `lo` those of x^0..x^63. */
  datatype U128 = U128(hi: bv64, lo: bv64)

  const Zero128 := U128(0, 0)

  /** Addition of polynomials is xor. */
  function Add(p: U128, q: U128): U128
  {
    U128(Xor64(p.hi, q.hi), Xor64(p.lo, q.lo))
  }

  /** The high word of a 128-bit shift left by one: hi<<1 | lo>>63. */
  function ShlHi(h: bv64, l: bv64): bv64
  {
    (h << 1) | (l >> 63)
  }

  /** The low word of a 128-bit shift left by one. */
  function ShlLo(l: bv64): bv64
  {
    l << 1
  }

  /** Multiplication by x: a 128-bit shift left by one. */
  function Shl1(p: U128): U128
  {
    U128(ShlHi(p.hi, p.lo), ShlLo(p.lo))
  }

  /** A 64-bit word as a polynomial of degree below 64. */
  function Lift(a: bv64): U128 { U128(0, a) }

  /** ctmul(a, b): the carry-less product of `a` and `b`, built from the
      lowest bit of `b` upwards: a*b = (b0 ? a : 0) + x * (a * (b >> 1)). */
  function CtMul(a: bv64, b: bv64): (r: U128)
    ensures b == 0 ==> r == Zero128
    ensures b == 1 ==> r == Lift(a)
    decreases b
  {
    if b == 0 then Zero128
    else if b & 1 == 1 then Add(Lift(a), Shl1(CtMul(a, b >> 1)))
    else Shl1(CtMul(a, b >> 1))
  }

  // Facts about words. Each is stated over word variables; the variables
  // standing for computed words are tied to their definitions by the
  // requires clauses, which the callers discharge with the unfolding
  // lemmas.

  lemma ShlHiDef(h: bv64, l: bv64)
    ensures ShlHi(h, l) == (h << 1) | (l >> 63)
  {
  }

  lemma ShlLoDef(l: bv64)
    ensures ShlLo(l) == l << 1
  {
  }

  lemma XorAssocWords(a: bv64, b: bv64, c: bv64, u: bv64, v: bv64)
    requires u == a ^ b && v == b ^ c
    ensures u ^ c == a ^ v
  {
  }

  lemma XorCancelWords(a: bv64, b: bv64, u: bv64)
    requires u == a ^ b
    ensures u ^ b == a
  {
  }

  lemma ShlHiXorWords(a: bv64, b: bv64, c: bv64, d: bv64, x: bv64, y: bv64, s: bv64, t: bv64)
    requires x == a ^ b && y == c ^ d
    requires s == (a << 1) | (c >> 63) && t == (b << 1) | (d >> 63)
    ensures (x << 1) | (y >> 63) == s ^ t
  {
  }

  lemma ShlLoXorWords(c: bv64, d: bv64, y: bv64, s: bv64, t: bv64)
    requires y == c ^ d && s == c << 1 && t == d << 1
    ensures y << 1 == s ^ t
  {
  }

  /** A word below 2^63 loses nothing when shifted left by one. */
  lemma ShlHiSmallWords(a: bv64)
    requires a < 0x8000_0000_0000_0000
    ensures (0 << 1) | (a >> 63) == 0
  {
  }

  /** An odd word is its upper bits shifted back, plus one. */
  lemma OddWords(b: bv64, s: bv64)
    requires b & 1 == 1 && s == (b >> 1) << 1
    ensures b == s ^ 1
  {
  }

  /** An even word is its upper bits shifted back. */
  lemma EvenWords(b: bv64)
    requires b & 1 != 1
    ensures b == (b >> 1) << 1
  {
  }

  /** An odd word is x times its upper bits, plus one. */
  lemma OddSplit(b: bv64)
    requires b & 1 == 1
    ensures b == Xor64(ShlLo(b >> 1), 1)
  {
    ShlLoDef(b >> 1);
    Xor64Def(ShlLo(b >> 1), 1);
    OddWords(b, ShlLo(b >> 1));
  }

  /** An even word is x times its upper bits. */
  lemma EvenSplit(b: bv64)
    requires b & 1 != 1
    ensures b == ShlLo(b >> 1)
  {
    ShlLoDef(b >> 1);
    EvenWords(b);
  }

  lemma HalfSmall(b: bv64)
    ensures b >> 1 < 0x8000_0000_0000_0000
  {
  }

  // The word operations as an algebra.

  lemma Xor64Assoc(a: bv64, b: bv64, c: bv64)
    ensures Xor64(Xor64(a, b), c) == Xor64(a, Xor64(b, c))
  {
    Xor64Def(a, b);
    Xor64Def(b, c);
    Xor64Def(Xor64(a, b), c);
    Xor64Def(a, Xor64(b, c));
    XorAssocWords(a, b, c, Xor64(a, b), Xor64(b, c));
  }

  lemma Xor64Comm(a: bv64, b: bv64)
    ensures Xor64(a, b) == Xor64(b, a)
  {
    Xor64Def(a, b);
    Xor64Def(b, a);
  }

  lemma Xor64Cancel(a: bv64, b: bv64)
    ensures Xor64(Xor64(a, b), b) == a
  {
    Xor64Def(a, b);
    Xor64Def(Xor64(a, b), b);
    XorCancelWords(a, b, Xor64(a, b));
  }

  lemma Xor64Zero(a: bv64)
    ensures Xor64(a, 0) == a && Xor64(0, a) == a
  {
    Xor64Def(a, 0);
    Xor64Def(0, a);
  }

  lemma Xor64Self(a: bv64)
    ensures Xor64(a, a) == 0
  {
    Xor64Def(a, a);
  }

  /** (a + b) + (c + d) == (a + d) + (b + c) */
  lemma Xor64Swap(a: bv64, b: bv64, c: bv64, d: bv64)
    ensures Xor64(Xor64(a, b), Xor64(c, d)) == Xor64(Xor64(a, d), Xor64(b, c))
  {
    calc {
      Xor64(Xor64(a, b), Xor64(c, d));
      { Xor64Comm(c, d); }
      Xor64(Xor64(a, b), Xor64(d, c));
      { Xor64Assoc(a, b, Xor64(d, c)); }
      Xor64(a, Xor64(b, Xor64(d, c)));
      { Xor64Assoc(b, d, c); Xor64Comm(b, d); Xor64Assoc(d, b, c); }
      Xor64(a, Xor64(d, Xor64(b, c)));
      { Xor64Assoc(a, d, Xor64(b, c)); }
      Xor64(Xor64(a, d), Xor64(b, c));
    }
  }

  /** Shifting distributes over xor, in each word. */
  lemma ShlHiXor(a: bv64, b: bv64, c: bv64, d: bv64)
    ensures ShlHi(Xor64(a, b), Xor64(c, d)) == Xor64(ShlHi(a, c), ShlHi(b, d))
  {
    Xor64Def(a, b);
    Xor64Def(c, d);
    ShlHiDef(Xor64(a, b), Xor64(c, d));
    ShlHiDef(a, c);
    ShlHiDef(b, d);
    Xor64Def(ShlHi(a, c), ShlHi(b, d));
    ShlHiXorWords(a, b, c, d, Xor64(a, b), Xor64(c, d), ShlHi(a, c), ShlHi(b, d));
  }

  lemma ShlLoXor(c: bv64, d: bv64)
    ensures ShlLo(Xor64(c, d)) == Xor64(ShlLo(c), ShlLo(d))
  {
    Xor64Def(c, d);
    ShlLoDef(Xor64(c, d));
    ShlLoDef(c);
    ShlLoDef(d);
    Xor64Def(ShlLo(c), ShlLo(d));
    ShlLoXorWords(c, d, Xor64(c, d), ShlLo(c), ShlLo(d));
  }

  // Ring laws for Add and Shl1.

  lemma AddAssoc(p: U128, q: U128, s: U128)
    ensures Add(Add(p, q), s) == Add(p, Add(q, s))
  {
    Xor64Assoc(p.hi, q.hi, s.hi);
    Xor64Assoc(p.lo, q.lo, s.lo);
  }

  lemma AddComm(p: U128, q: U128)
    ensures Add(p, q) == Add(q, p)
  {
    Xor64Comm(p.hi, q.hi);
    Xor64Comm(p.lo, q.lo);
  }

  lemma AddZero(p: U128)
    ensures Add(p, Zero128) == p && Add(Zero128, p) == p
  {
    Xor64Zero(p.hi);
    Xor64Zero(p.lo);
  }

  lemma AddSelf(p: U128)
    ensures Add(p, p) == Zero128
  {
    Xor64Self(p.hi);
    Xor64Self(p.lo);
  }

  /** (a + b) + (c + d) == (a + c) + (b + d) */
  lemma AddSwap(a: U128, b: U128, c: U128, d: U128)
    ensures Add(Add(a, b), Add(c, d)) == Add(Add(a, c), Add(b, d))
  {
    AddAssoc(a, b, Add(c, d));
    AddAssoc(b, c, d);
    AddComm(b, c);
    AddAssoc(c, b, d);
    AddAssoc(a, c, Add(b, d));
  }

  lemma LiftXor(a: bv64, b: bv64)
    ensures Lift(Xor64(a, b)) == Add(Lift(a), Lift(b))
  {
    Xor64Zero(0);
  }

  /** Multiplication by x distributes over addition. */
  lemma Shl1Add(p: U128, q: U128)
    ensures Shl1(Add(p, q)) == Add(Shl1(p), Shl1(q))
  {
    ShlHiXor(p.hi, q.hi, p.lo, q.lo);
    ShlLoXor(p.lo, q.lo);
  }

  lemma Shl1Zero()
    ensures Shl1(Zero128) == Zero128
  {
    ShlHiDef(0, 0);
    ShlLoDef(0);
  }

  lemma LiftShl(a: bv64)
    requires a < 0x8000_0000_0000_0000
    ensures Lift(ShlLo(a)) == Shl1(Lift(a))
  {
    ShlHiDef(0, a);
    ShlHiSmallWords(a);
  }

  // The algebra of ctmul.

  /** 0 * b == 0 */
  lemma {:induction false} ZeroLeft(b: bv64)
    ensures CtMul(0, b) == Zero128
    decreases b
  {
    if b != 0 {
      ZeroLeft(b >> 1);
      Shl1Zero();
      AddZero(Zero128);
    }
  }

  /** ctmul distributes over xor in its first operand. */
  lemma {:induction false} XorLeft(a: bv64, c: bv64, b: bv64)
    ensures CtMul(Xor64(a, c), b) == Add(CtMul(a, b), CtMul(c, b))
    decreases b
  {
    if b == 0 {
      AddZero(Zero128);
    } else {
      XorLeft(a, c, b >> 1);
      var p, q := CtMul(a, b >> 1), CtMul(c, b >> 1);
      Shl1Add(p, q);
      if b & 1 == 1 {
        LiftXor(a, c);
        AddSwap(Lift(a), Lift(c), Shl1(p), Shl1(q));
      }
    }
  }

  /** XorLeft for a first operand already known to be a sum. */
  lemma XorLeftAt(a: bv64, c: bv64, s: bv64, b: bv64)
    requires s == Xor64(a, c)
    ensures CtMul(s, b) == Add(CtMul(a, b), CtMul(c, b))
  {
    XorLeft(a, c, b);
  }

  lemma RecomposeOdd(b: bv64)
    requires b & 1 == 1
    ensures Lift(b) == Add(Lift(1), Shl1(Lift(b >> 1)))
  {
    HalfSmall(b);
    LiftShl(b >> 1);
    OddSplit(b);
    Xor64Comm(ShlLo(b >> 1), 1);
    Xor64Zero(0);
  }

  lemma RecomposeEven(b: bv64)
    requires b & 1 != 1
    ensures Lift(b) == Shl1(Lift(b >> 1))
  {
    HalfSmall(b);
    LiftShl(b >> 1);
    EvenSplit(b);
  }

  /** 1 * b == b */
  lemma {:induction false} OneLeft(b: bv64)
    ensures CtMul(1, b) == Lift(b)
    decreases b
  {
    if b != 0 {
      OneLeft(b >> 1);
      if b & 1 == 1 {
        RecomposeOdd(b);
      } else {
        RecomposeEven(b);
      }
    }
  }

  /** (x * a) * b == x * (a * b) when x * a still fits in 64 bits. */
  lemma {:induction false} ShlLeft(a: bv64, b: bv64)
    requires a < 0x8000_0000_0000_0000
    ensures CtMul(ShlLo(a), b) == Shl1(CtMul(a, b))
    decreases b
  {
    if b == 0 {
      Shl1Zero();
    } else {
      ShlLeft(a, b >> 1);
      if b & 1 == 1 {
        LiftShl(a);
        Shl1Add(Lift(a), Shl1(CtMul(a, b >> 1)));
      }
    }
  }

  /** The induction step of Comm for an odd `b`. */
  lemma CommOdd(a: bv64, b: bv64)
    requires b & 1 == 1
    requires CtMul(a, b >> 1) == CtMul(b >> 1, a)
    ensures CtMul(a, b) == CtMul(b, a)
  {
    var h := b >> 1;
    HalfSmall(b);
    OddSplit(b);
    calc {
      CtMul(b, a);
      { XorLeftAt(ShlLo(h), 1, b, a); }
      Add(CtMul(ShlLo(h), a), CtMul(1, a));
      { ShlLeft(h, a); OneLeft(a); }
      Add(Shl1(CtMul(h, a)), Lift(a));
      { AddComm(Lift(a), Shl1(CtMul(a, h))); }
      Add(Lift(a), Shl1(CtMul(a, h)));
      CtMul(a, b);
    }
  }

  /** The induction step of Comm for an even, non-zero `b`. */
  lemma CommEven(a: bv64, b: bv64)
    requires b != 0 && b & 1 != 1
    requires CtMul(a, b >> 1) == CtMul(b >> 1, a)
    ensures CtMul(a, b) == CtMul(b, a)
  {
    var h := b >> 1;
    HalfSmall(b);
    EvenSplit(b);
    calc {
      CtMul(b, a);
      CtMul(ShlLo(h), a);
      { ShlLeft(h, a); }
      Shl1(CtMul(h, a));
      Shl1(CtMul(a, h));
      CtMul(a, b);
    }
  }

  /** ctmul is commutative. */
  lemma {:induction false} Comm(a: bv64, b: bv64)
    ensures CtMul(a, b) == CtMul(b, a)
    decreases b
  {
    if b == 0 {
      ZeroLeft(a);
    } else {
      Comm(a, b >> 1);
      if b & 1 == 1 {
        CommOdd(a, b);
      } else {
        CommEven(a, b);
      }
    }
  }

  /** ctmul distributes over xor in its second operand. */
  lemma XorRight(a: bv64, b: bv64, c: bv64)
    ensures CtMul(a, Xor64(b, c)) == Add(CtMul(a, b), CtMul(a, c))
  {
    Comm(a, Xor64(b, c));
    XorLeft(b, c, a);
    Comm(b, a);
    Comm(c, a);
  }

  /** (a + b) * (c + d) == a*c + a*d + b*c + b*d */
  lemma Bilinear(a: bv64, b: bv64, c: bv64, d: bv64)
    ensures CtMul(Xor64(a, b), Xor64(c, d))
         == Add(Add(CtMul(a, c), CtMul(a, d)), Add(CtMul(b, c), CtMul(b, d)))
  {
    XorLeft(a, b, Xor64(c, d));
    XorRight(a, c, d);
    XorRight(b, c, d);
  }
}
