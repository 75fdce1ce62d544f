/** The POLYVAL universal hash of section 3 of RFC 8452: the `polyval`
    state of polyval.go (`init`, `update`, `sum`) and the interface of the
    external polyval package that hctr2.go drives (`New`, `Update` on whole
    blocks, `Reset`, `Sum`, `MarshalBinary`, `UnmarshalBinary`). Both keep a
    key `h` and an accumulator `y`; the package is modelled by the same
    state, with its serialised form being the 16-byte encoding of `y`. */
module Polyval {
  import opened Bytes
  import opened Field
  import opened Results

  /** polyval{h, y}: the hash key and the running value. */
  datatype Polyval = Polyval(h: FieldElement, y: FieldElement)

  /** init: sets the key from 16 bytes and leaves the accumulator alone.
      Go's setBytes panics on a shorter key; its callers always pass a
      whole block, so the requires excludes no call that can happen. */
  function Init(p: Polyval, key: seq<Byte>): (r: Polyval)
    requires |key| >= 16
    ensures r.y == p.y
    ensures ToBytes(r.h) == key[..16]
  {
    ToBytesSetBytes(key);
    p.(h := SetBytes(key))
  }

  /** update: y = (y + x) * h. The assembly variant polyvalAsm is taken to
      compute the same value. */
  function Update(p: Polyval, x: FieldElement): (r: Polyval)
    ensures r.h == p.h
  {
    p.(y := Mul(Xor(p.y, x), p.h))
  }

  /** sum: the accumulator, leaving the state unchanged. */
  function Sum(p: Polyval): FieldElement
  {
    p.y
  }

  /** The POLYVAL recurrence of RFC 8452 from a starting value `s` over
      the blocks X_1..X_n: S_0 = s and S_j = (S_{j-1} + X_j) * H. */
  function Horner(h: FieldElement, s: FieldElement, xs: seq<Block>): FieldElement
    decreases |xs|
  {
    if |xs| == 0 then s
    else Mul(Xor(Horner(h, s, xs[..|xs| - 1]), SetBytes(xs[|xs| - 1])), h)
  }

  /** Folding one more block onto the front of the sequence is absorbing it
      first. */
  lemma {:induction false} HornerCons(h: FieldElement, s: FieldElement, x: Block, xs: seq<Block>)
    ensures Horner(h, s, [x] + xs) == Horner(h, Mul(Xor(s, SetBytes(x)), h), xs)
    decreases |xs|
  {
    if |xs| == 0 {
      assert ([x] + xs)[..0] == [];
    } else {
      var ys := [x] + xs;
      assert ys[..|ys| - 1] == [x] + xs[..|xs| - 1];
      HornerCons(h, s, x, xs[..|xs| - 1]);
    }
  }

  lemma {:induction false} HornerAppend(h: FieldElement, s: FieldElement, xs: seq<Block>, ys: seq<Block>)
    ensures Horner(h, s, xs + ys) == Horner(h, Horner(h, s, xs), ys)
    decreases |ys|
  {
    if |ys| == 0 {
      assert xs + ys == xs;
    } else {
      var zs := xs + ys;
      assert zs[..|zs| - 1] == xs + ys[..|ys| - 1];
      HornerAppend(h, s, xs, ys[..|ys| - 1]);
    }
  }

  // The external polyval package.

  /** polyval.New: a hash with a 16-byte key and a zero accumulator; any
      other key length is refused. */
  function NewHash(key: seq<Byte>): (r: Option<Polyval>)
    ensures r.Some? <==> |key| == 16
    ensures r.Some? ==> r.value.y == Zero && ToBytes(r.value.h) == key
  {
    if |key| != 16 then None
    else
      ToBytesSetBytes(key);
      Some(Polyval(SetBytes(key), Zero))
  }

  /** Update: absorbs each 16-byte block of `data` in turn. hctr2.go only
      passes whole blocks. */
  function UpdateBlocks(p: Polyval, data: seq<Byte>): Polyval
    requires |data| % 16 == 0
    decreases |data|
  {
    if |data| == 0 then p
    else UpdateBlocks(Update(p, SetBytes(data[..16])), data[16..])
  }

  /** The block fold of the package is the POLYVAL recurrence over the
      blocks, and leaves the key unchanged. */
  lemma {:induction false} UpdateBlocksIsHorner(p: Polyval, data: seq<Byte>)
    requires |data| % 16 == 0
    ensures UpdateBlocks(p, data) == Polyval(p.h, Horner(p.h, p.y, Chunks(data)))
    decreases |data|
  {
    if |data| != 0 {
      var q := Update(p, SetBytes(data[..16]));
      UpdateBlocksIsHorner(q, data[16..]);
      HornerCons(p.h, p.y, data[..16], Chunks(data[16..]));
    }
  }

  /** Absorbing `a` and then `b` is absorbing `a + b`. */
  lemma UpdateBlocksAppend(p: Polyval, a: seq<Byte>, b: seq<Byte>)
    requires |a| % 16 == 0 && |b| % 16 == 0
    ensures |a + b| % 16 == 0
    ensures UpdateBlocks(UpdateBlocks(p, a), b) == UpdateBlocks(p, a + b)
  {
    ChunksAppend(a, b);
    UpdateBlocksIsHorner(p, a);
    UpdateBlocksIsHorner(UpdateBlocks(p, a), b);
    UpdateBlocksIsHorner(p, a + b);
    HornerAppend(p.h, p.y, Chunks(a), Chunks(b));
  }

  /** Reset: clears the accumulator and keeps the key. */
  function Reset(p: Polyval): (r: Polyval)
    ensures r.h == p.h && r.y == Zero
  {
    p.(y := Zero)
  }

  /** Sum: the 16-byte encoding of the accumulator. */
  function SumBytes(p: Polyval): Block
  {
    ToBytes(p.y)
  }

  /** MarshalBinary: the serialised accumulator. */
  function Marshal(p: Polyval): Block
  {
    ToBytes(p.y)
  }

  /** UnmarshalBinary: replaces the accumulator with a serialised one. */
  function Unmarshal(p: Polyval, state: Block): Polyval
  {
    p.(y := SetBytes(state))
  }

  /** Restoring a snapshot gives back exactly the state it was taken from,
      whatever happened to the accumulator in between. */
  lemma MarshalRoundTrip(p: Polyval, q: Polyval)
    requires q.h == p.h
    ensures Unmarshal(q, Marshal(p)) == p
  {
    SetBytesToBytes(p.y);
  }

  /** A snapshot determines the accumulator. */
  lemma MarshalInjective(p: Polyval, q: Polyval)
    ensures Marshal(p) == Marshal(q) <==> p.y == q.y
  {
    ToBytesInjective(p.y, q.y);
  }
}
