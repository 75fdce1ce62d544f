/** Two places where hctr2.go departs from HCTR2, each modelled as the code
    is written, with an input that shows the difference. The corrected
    behaviour is what module Hctr2 models (InitTweak with RebuildCache,
    and Hctr2 with V = dst[BlockSize:len(src)]).

    1. initTweak (hctr2.go:208-215) absorbs the first header block into
       the running POLYVAL without resetting it first, so state0 is taken
       from whatever accumulator the previous call left behind. Only the
       very first call, right after New, starts from zero; after a change
       of tweak length the cached state0 is stale.

    2. hctr2 (hctr2.go:188-194) hashes V = dst[BlockSize:], all of dst
       after the first block. Encrypt and Decrypt allow dst to be longer
       than src, and then the bytes of dst beyond len(src), which XCTR does
       not write, enter the hash that produces the first output block. */
module Findings {
  import opened Bytes
  import opened Results
  import opened CarryLess
  import opened Field
  import opened Polyval
  import opened Xctr
  import opened HctrMode
  import opened Hctr2

  // Finding 1: the cache rebuild of initTweak.

  /** The cache rebuild as hctr2.go:208-221 writes it: the first header
      block goes into the hash as it is, then the state is saved and the
      hash reset; the second header goes into the reset hash. */
  function RebuildCacheAsWritten(c: Cipher, tlen: nat): (r: Cipher)
    ensures r.h == Reset(c.h) && r.tweakLen == tlen
    ensures r.block == c.block && r.l == c.l
    ensures r.state0 == Some(ToBytes(Horner(c.h.h, c.h.y, [Header(tlen, false)])))
    ensures r.state1 == Some(HeaderState(c.h.h, tlen, true))
  {
    var p := UpdateBlocks(c.h, Header(tlen, false));
    var s0 := Marshal(p);
    var q := UpdateBlocks(Reset(p), Header(tlen, true));
    OneHeader(c.h, tlen, false);
    OneHeader(Reset(p), tlen, true);
    c.(h := Reset(q), state0 := Some(s0), state1 := Some(Marshal(q)), tweakLen := tlen)
  }

  /** Absorbing one header block is one Horner step. */
  lemma OneHeader(p: Polyval, tlen: nat, odd: bool)
    ensures UpdateBlocks(p, Header(tlen, odd)) == Polyval(p.h, Horner(p.h, p.y, [Header(tlen, odd)]))
  {
    var b := Header(tlen, odd);
    UpdateBlocksIsHorner(p, b);
    assert Chunks(b) == [b] by {
      assert b[..16] == b && b[16..] == [];
    }
  }

  /** The rest of initTweak, shared by both versions: restore the state
      cached for the message length, then absorb pad(T). When the cache
      holds the header states for this tweak length, the result is the
      HCTR2 tweak state. */
  function RestoreAndAbsorb(c: Cipher, tweak: seq<Byte>, n: nat): (r: Cipher)
    requires c.state0.Some? && c.state1.Some?
    ensures r == c.(h := r.h) && r.h.h == c.h.h
    ensures r.h.y == Horner(c.h.h, SetBytes(if n % 16 == 0 then c.state0.value else c.state1.value),
                            Chunks(ZeroPad(tweak)))
    ensures Valid(c) && c.tweakLen == |tweak| ==> r.h.y == TweakHash(c.h.h, tweak, n)
  {
    var st := if n % 16 == 0 then c.state0.value else c.state1.value;
    UpdateBlocksIsHorner(Unmarshal(c.h, st), ZeroPad(tweak));
    if Valid(c) && c.tweakLen == |tweak| then
      SetBytesToBytes(HeaderAcc(c.h.h, |tweak|, n % 16 != 0));
      c.(h := UpdateBlocks(Unmarshal(c.h, st), ZeroPad(tweak)))
    else
      c.(h := UpdateBlocks(Unmarshal(c.h, st), ZeroPad(tweak)))
  }

  /** initTweak as written: the rebuild above, then the same restore and
      tweak absorption as the corrected InitTweak. It computes the HCTR2
      tweak state when the cache is reused or the accumulator it finds is
      zero, as it is right after New. */
  function InitTweakAsWritten(c: Cipher, tweak: seq<Byte>, n: nat): (r: Cipher)
    requires Valid(c)
    ensures r.tweakLen == |tweak| && r.block == c.block && r.l == c.l && r.h.h == c.h.h
    ensures (c.state0.Some? && c.tweakLen == |tweak|) || c.h.y == Zero
            ==> Valid(r) && r.h.y == TweakHash(c.h.h, tweak, n)
  {
    var hit := c.state0.Some? && c.tweakLen == |tweak|;
    var c1 := if hit then c else RebuildCacheAsWritten(c, |tweak|);
    if !hit && c.h.y == Zero then
      AsWrittenCache(c, |tweak|);
      RestoreAndAbsorb(c1, tweak, n)
    else
      RestoreAndAbsorb(c1, tweak, n)
  }

  /** With a zero accumulator the rebuild stores the right states. */
  lemma AsWrittenCache(c: Cipher, tlen: nat)
    requires Valid(c) && c.h.y == Zero
    ensures Valid(RebuildCacheAsWritten(c, tlen))
  {
  }

  /** A cipher whose cache belongs to one-byte tweaks and whose
      accumulator holds hi = 0, lo = 2, which is the header block of the
      empty tweak read as an element: a state a previous call can leave
      behind. h is the element hi = 1, lo = 0. */
  function StaleCipher(b: BlockCipher, l: Block): (c: Cipher)
    requires WellFormed(b)
    ensures Valid(c) && c.tweakLen == 1 && c.h.y != Zero
  {
    var h := FieldElement(1, 0);
    var s0, s1 := HeaderState(h, 1, false), HeaderState(h, 1, true);
    var y := FieldElement(0, 2);
    assert y.lo != Zero.lo;
    CachedValid(b, Polyval(h, y), l, 1);
    Cipher(b, Polyval(h, y), l, 1, Some(s0), Some(s1))
  }

  /** A cipher whose cache holds the two header states of its own key
      and tweak length is valid, whatever its accumulator holds. */
  lemma CachedValid(b: BlockCipher, p: Polyval, l: Block, tlen: nat)
    requires WellFormed(b)
    ensures Valid(Cipher(b, p, l, tlen, Some(HeaderState(p.h, tlen, false)),
                         Some(HeaderState(p.h, tlen, true))))
  {
  }

  /** Switching that cipher to the empty tweak with a whole-block message
      rebuilds the cache from the stale accumulator: initTweak leaves the
      zero element where HCTR2 has POLYVAL(h, bin(2)), which is
      hi = 3, lo = 0x8400000000000000. */
  lemma StaleCacheWitness(b: BlockCipher, l: Block)
    requires WellFormed(b)
    ensures InitTweakAsWritten(StaleCipher(b, l), [], 0).h.y == Zero
    ensures TweakHash(FieldElement(1, 0), [], 0) == FieldElement(3, 0x8400000000000000)
    ensures InitTweakAsWritten(StaleCipher(b, l), [], 0).h.y != TweakHash(StaleCipher(b, l).h.h, [], 0)
  {
    var c := StaleCipher(b, l);
    var c1 := RebuildCacheAsWritten(c, 0);
    StaleRebuild(c);
    EmptyTweak(c1);
    TweakHashWitness();
  }

  /** The stale accumulator cancels the header: the rebuilt state0 is the
      zero element. */
  lemma StaleRebuild(c: Cipher)
    requires c.h == Polyval(FieldElement(1, 0), FieldElement(0, 2))
    ensures RebuildCacheAsWritten(c, 0).state0 == Some(ToBytes(Zero))
  {
    var h := c.h.h;
    HeaderBits();
    OneStep(h, c.h.y, Header(0, false));
    XorSelf(c.h.y);
    ZeroMul(h);
  }

  /** Restoring the zero state for the empty tweak leaves zero. */
  lemma EmptyTweak(c: Cipher)
    requires c.state0 == Some(ToBytes(Zero)) && c.state1.Some?
    ensures RestoreAndAbsorb(c, [], 0).h.y == Zero
  {
    SetBytesToBytes(Zero);
    assert ZeroPad([]) == [];
  }

  /** The header block for empty tweaks and whole-block messages reads as
      the element hi = 0, lo = 2. */
  lemma HeaderBits()
    ensures SetBytes(Header(0, false)) == FieldElement(0, 2)
  {
    HeaderZero();
    var b := Header(0, false);
    assert b[0..8] == PutLE64(2) && b[8..16] == PutLE64(0);
    ReadWord(2);
    ReadWord(0);
  }

  /** The header word for the empty tweak is 2. */
  lemma HeaderZero()
    ensures Header(0, false) == PutLE64(2) + PutLE64(0)
  {
    assert HeaderWord(0) == 2;
    UintTwo();
    ZeroWord();
  }

  lemma UintTwo()
    ensures Uint64(2) == 2
  {
    assert 2 % 0x1_0000_0000_0000_0000 == 2;
    assert (2 as int) as bv64 == 2;
  }

  lemma ReadWord(v: bv64)
    ensures GetLE64(PutLE64(v)) == v
  {
    GetPutLE64(v);
  }

  /** Horner over a single block. */
  lemma OneStep(h: FieldElement, s: FieldElement, x: Block)
    ensures Horner(h, s, [x]) == Mul(Xor(s, SetBytes(x)), h)
  {
    HornerCons(h, s, x, []);
  }

  /** POLYVAL of that header alone, under h with hi = 1, lo = 0. */
  lemma TweakHashWitness()
    ensures TweakHash(FieldElement(1, 0), [], 0) == FieldElement(3, 0x8400000000000000)
  {
    var h := FieldElement(1, 0);
    HeaderBits();
    OneStep(h, Zero, Header(0, false));
    XorZero(FieldElement(0, 2));
    MulWitness();
    assert ZeroPad([]) == [];
    assert Chunks([]) == [];
  }

  /** mul on two concrete elements, limb by limb. */
  lemma MulWitness()
    ensures Mul(FieldElement(0, 2), FieldElement(1, 0)) == FieldElement(3, 0x8400000000000000)
  {
    KaratsubaWitness();
    ReduceWitness();
  }

  lemma KaratsubaWitness()
    ensures Karatsuba(FieldElement(0, 2), FieldElement(1, 0)) == Product(0, 0, 2, 0)
  {
    Xor64Zero(2);
    Xor64Zero(1);
    Xor64Zero(0);
    assert Xor64(0, 2) == 2 && Xor64(1, 0) == 1;
    assert CtMul(0, 1) == U128(0, 0);
    assert CtMul(2, 0) == U128(0, 0);
    assert CtMul(2, 1) == U128(0, 2);
  }

  lemma ReduceWitness()
    ensures Reduce(Product(0, 0, 2, 0)) == FieldElement(3, 0x8400000000000000)
  {
    ZeroLeft(Poly);
    PolyTimesX();
    Xor64Zero(2);
    Xor64Zero(0);
    assert Xor64(2, 1) == 3;
    assert Xor64(0, 0x8400000000000000) == 0x8400000000000000;
    assert Xor64(3, 0) == 3;
    assert Xor64(0x8400000000000000, 0) == 0x8400000000000000;
  }

  /** x times the reduction constant: one bit carries into the high word. */
  lemma PolyTimesX()
    ensures CtMul(2, Poly) == U128(1, 0x8400000000000000)
  {
    assert ShlLo(1) == 2;
    ShlLeft(1, Poly);
    OneLeft(Poly);
    var p := Poly;
    assert ShlHi(0, p) == 1;
    assert ShlLo(p) == 0x8400000000000000;
  }

  // Finding 2: the second hash reads past the message.

  /** Cipher.hctr2 as written: V = dst[BlockSize:] is XCTR output over
      its first |N| bytes and the old dst beyond, and all of it is hashed
      for U, from the state restored for |N|. */
  function PassAsWritten(c: Cipher, t: seq<Byte>, seal: bool, dst: seq<Byte>, src: seq<Byte>): (r: seq<Byte>)
    requires WellFormed(c.block) && |src| >= 16 && |dst| >= |src|
    ensures |r| == |dst|
    ensures |dst| == |src| ==> r == Pass(c, t, seal, src)
  {
    var h := c.h.h;
    var N := src[16..];
    var MM := XorBytes(src[..16], HashFn(h, t)(N));
    var UU := Direction(c.block, seal)(MM);
    var V := Apply(EncryptFn(c.block), Middle(MM, UU, c.l), N) + dst[|src|..];
    assert |dst| == |src| ==> V == Apply(EncryptFn(c.block), Middle(MM, UU, c.l), N);
    XorBytes(UU, ToBytes(Horner(h, TweakHash(h, t, |N|), Chunks(PadMarker(V))))) + V
  }

  /** A one-block message with 16 spare bytes in dst, those bytes being
      the serialised tweak state: the second hash cancels to zero, and
      the first output block differs from HCTR2's, which uses
      H(T, empty) = the tweak state itself. */
  lemma SpareBytesWitness(c: Cipher, t: seq<Byte>, seal: bool, src: Block)
    requires WellFormed(c.block)
    requires TweakHash(c.h.h, t, 0) != Zero
    ensures var dst := src + ToBytes(TweakHash(c.h.h, t, 0));
            PassAsWritten(c, t, seal, dst, src)[..16] != Pass(c, t, seal, src)[..16]
  {
    var s := TweakHash(c.h.h, t, 0);
    var UU := FirstMiddle(c, t, seal, src);
    AsWrittenFirstBlock(c, t, seal, src);
    HctrFirstBlock(c, t, seal, src);
    ToBytesInjective(s, Zero);
    XorInjective(UU, ToBytes(Zero), ToBytes(s));
  }

  /** UU for a one-block message: the block cipher applied to the source
      block xor-ed with H(T, empty). */
  function FirstMiddle(c: Cipher, t: seq<Byte>, seal: bool, src: Block): Block
    requires WellFormed(c.block)
  {
    Direction(c.block, seal)(XorBytes(src, HashFn(c.h.h, t)([])))
  }

  /** As written, the spare block is hashed and cancels the tweak state. */
  lemma AsWrittenFirstBlock(c: Cipher, t: seq<Byte>, seal: bool, src: Block)
    requires WellFormed(c.block)
    ensures var dst := src + ToBytes(TweakHash(c.h.h, t, 0));
            PassAsWritten(c, t, seal, dst, src)[..16]
              == XorBytes(FirstMiddle(c, t, seal, src), ToBytes(Zero))
  {
    var h := c.h.h;
    var s := TweakHash(h, t, 0);
    var dst := src + ToBytes(s);
    var UU := OneBlockMiddle(c, t, seal, src);
    var V := Apply(EncryptFn(c.block), Middle(XorBytes(src[..16], HashFn(h, t)(src[16..])), UU, c.l), src[16..])
             + dst[|src|..];
    OneBlockTail(c, t, seal, src, dst);
    var r := PassAsWritten(c, t, seal, dst, src);
    assert r == XorBytes(UU, ToBytes(Horner(h, s, Chunks(PadMarker(V))))) + V;
    SpareCancels(h, s);
  }

  /** For a one-block source, the middle value computed as in the mode
      is FirstMiddle. */
  lemma OneBlockMiddle(c: Cipher, t: seq<Byte>, seal: bool, src: Block) returns (UU: Block)
    requires WellFormed(c.block)
    ensures UU == Direction(c.block, seal)(XorBytes(src[..16], HashFn(c.h.h, t)(src[16..])))
    ensures UU == FirstMiddle(c, t, seal, src)
  {
    assert src[16..] == [] && src[..16] == src;
    UU := FirstMiddle(c, t, seal, src);
  }

  /** For a one-block source, the as-written V is just the bytes of dst
      past the source. */
  lemma OneBlockTail(c: Cipher, t: seq<Byte>, seal: bool, src: Block, dst: seq<Byte>)
    requires WellFormed(c.block) && |dst| >= 16
    ensures var MM := XorBytes(src[..16], HashFn(c.h.h, t)(src[16..]));
            Apply(EncryptFn(c.block), Middle(MM, Direction(c.block, seal)(MM), c.l), src[16..])
              + dst[|src|..] == dst[16..]
  {
    assert src[16..] == [];
  }

  /** A block holding the serialised state, hashed from that state,
      leaves the zero element. */
  lemma SpareCancels(h: FieldElement, s: FieldElement)
    ensures Horner(h, s, Chunks(PadMarker(ToBytes(s)))) == Zero
  {
    var spare := ToBytes(s);
    assert PadMarker(spare) == spare;
    OneBlockChunks(spare);
    OneStep(h, s, spare);
    SetBytesToBytes(s);
    XorSelf(s);
    ZeroMul(h);
  }

  /** HCTR2 hashes the empty V to the tweak state itself. */
  lemma HctrFirstBlock(c: Cipher, t: seq<Byte>, seal: bool, src: Block)
    requires WellFormed(c.block)
    ensures Pass(c, t, seal, src)[..16]
              == XorBytes(FirstMiddle(c, t, seal, src), ToBytes(TweakHash(c.h.h, t, 0)))
  {
    var h := c.h.h;
    var N := src[16..];
    assert N == [] && src[..16] == src;
    var MM := XorBytes(src[..16], HashFn(h, t)(N));
    var UU := Direction(c.block, seal)(MM);
    assert UU == FirstMiddle(c, t, seal, src);
    var V := Apply(EncryptFn(c.block), Middle(MM, UU, c.l), N);
    assert V == [];
    assert PadMarker(V) == [];
  }

  lemma OneBlockChunks(b: Block)
    ensures Chunks(b) == [b]
  {
    assert b[..16] == b && b[16..] == [];
  }

  /** Xor with a fixed block is injective. */
  lemma XorInjective(k: Block, a: Block, b: Block)
    requires a != b
    ensures XorBytes(k, a) != XorBytes(k, b)
  {
    XorBytesCancelLeft(k, a);
    XorBytesCancelLeft(k, b);
  }

  /** For the concrete h of finding 1 the tweak state of the empty tweak
      is not zero, so the witness above applies to it. */
  lemma SpareBytesConcrete(b: BlockCipher, l: Block, seal: bool, src: Block)
    requires WellFormed(b)
    ensures var c := Cipher(b, Polyval(FieldElement(1, 0), Zero), l, 0, None, None);
            var dst := src + ToBytes(FieldElement(3, 0x8400000000000000));
            PassAsWritten(c, [], seal, dst, src)[..16] != Pass(c, [], seal, src)[..16]
  {
    var c := Cipher(b, Polyval(FieldElement(1, 0), Zero), l, 0, None, None);
    TweakHashWitness();
    SpareBytesWitness(c, [], seal, src);
  }
}
