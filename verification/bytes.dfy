/** Byte-level helpers of hctr2.go: little-endian 64-bit packing (the
    encoding/binary calls), the block and slice xor helpers, and the buffer
    overlap test of internal/subtle. */
module Bytes {

  type Byte = bv8

  /** A 16-byte block, the only block size HCTR2 accepts. */
  type Block = s: seq<Byte> | |s| == 16
    witness [0, 0, 0, 0, 0, 0, 0, 0, 0, 0, 0, 0, 0, 0, 0, 0]

  const ZeroBlock: Block := [0, 0, 0, 0, 0, 0, 0, 0, 0, 0, 0, 0, 0, 0, 0, 0]

  function Zeros(n: nat): (z: seq<Byte>)
    ensures |z| == n
    ensures forall i | 0 <= i < n :: z[i] == 0
  {
    seq(n, _ => 0)
  }

  /** The word whose little-endian bytes are b0..b7. */
  function Word(b0: Byte, b1: Byte, b2: Byte, b3: Byte, b4: Byte, b5: Byte, b6: Byte, b7: Byte): bv64
  {
    (b0 as bv64) | ((b1 as bv64) << 8) | ((b2 as bv64) << 16) | ((b3 as bv64) << 24)
    | ((b4 as bv64) << 32) | ((b5 as bv64) << 40) | ((b6 as bv64) << 48) | ((b7 as bv64) << 56)
  }

  /** binary.LittleEndian.Uint64 */
  function GetLE64(b: seq<Byte>): bv64
    requires |b| == 8
  {
    Word(b[0], b[1], b[2], b[3], b[4], b[5], b[6], b[7])
  }

  /** Assembling words commutes with xor. */
  lemma WordXor(a0: Byte, a1: Byte, a2: Byte, a3: Byte, a4: Byte, a5: Byte, a6: Byte, a7: Byte,
                b0: Byte, b1: Byte, b2: Byte, b3: Byte, b4: Byte, b5: Byte, b6: Byte, b7: Byte)
    ensures Word(a0 ^ b0, a1 ^ b1, a2 ^ b2, a3 ^ b3, a4 ^ b4, a5 ^ b5, a6 ^ b6, a7 ^ b7)
         == Word(a0, a1, a2, a3, a4, a5, a6, a7) ^ Word(b0, b1, b2, b3, b4, b5, b6, b7)
  {
  }

  /** Xor of two words. Kept as a function so that sums of several words
      are reasoned about by congruence rather than bit by bit. */
  function Xor64(a: bv64, b: bv64): bv64 { a ^ b }

  /** The definition of Xor64 as a fact. The word lemmas below call such
      unfolding lemmas explicitly rather than leaving the solver to find
      the instances. */
  lemma Xor64Def(a: bv64, b: bv64)
    ensures Xor64(a, b) == a ^ b
  {
  }

  /** The low byte of a word. */
  function Low8(v: bv64): Byte
  {
    (v & 0xff) as bv8
  }

  /** binary.LittleEndian.PutUint64 */
  function PutLE64(v: bv64): (r: seq<Byte>)
    ensures |r| == 8
  {
    [Low8(v), Low8(v >> 8), Low8(v >> 16), Low8(v >> 24),
     Low8(v >> 32), Low8(v >> 40), Low8(v >> 48), Low8(v >> 56)]
  }

  /** Reading back a word that was written returns it. */
  lemma GetPutLE64(v: bv64)
    ensures GetLE64(PutLE64(v)) == v
  {
  }

  /** Writing back a word that was read reproduces the bytes. */
  lemma PutGetLE64(b: seq<Byte>)
    requires |b| == 8
    ensures PutLE64(GetLE64(b)) == b
  {
  }

  /** Byte-wise xor of two strings of equal length. */
  function XorBytes(a: seq<Byte>, b: seq<Byte>): (r: seq<Byte>)
    requires |a| == |b|
    ensures |r| == |a|
  {
    seq(|a|, i requires 0 <= i < |a| => a[i] ^ b[i])
  }

  lemma ByteXorCancel(a: Byte, k: Byte)
    ensures (a ^ k) ^ k == a
  {
  }

  lemma ByteXorCancelLeft(k: Byte, a: Byte)
    ensures k ^ (k ^ a) == a
  {
  }

  /** Xor-ing the same string in front twice gives the original back. */
  lemma XorBytesCancelLeft(k: seq<Byte>, a: seq<Byte>)
    requires |a| == |k|
    ensures XorBytes(k, XorBytes(k, a)) == a
  {
    forall j | 0 <= j < |a|
      ensures XorBytes(k, XorBytes(k, a))[j] == a[j]
    {
      ByteXorCancelLeft(k[j], a[j]);
    }
  }

  /** Xor-ing the same string twice gives the original back. */
  lemma XorBytesCancel(a: seq<Byte>, k: seq<Byte>)
    requires |a| == |k|
    ensures XorBytes(XorBytes(a, k), k) == a
  {
    forall j | 0 <= j < |a|
      ensures XorBytes(XorBytes(a, k), k)[j] == a[j]
    {
      ByteXorCancel(a[j], k[j]);
    }
  }

  /** Byte-wise xor works piece by piece. */
  lemma XorBytesAppend(a1: seq<Byte>, a2: seq<Byte>, b1: seq<Byte>, b2: seq<Byte>)
    requires |a1| == |b1| && |a2| == |b2|
    ensures XorBytes(a1 + a2, b1 + b2) == XorBytes(a1, b1) + XorBytes(a2, b2)
  {
  }

  /** Reading a word from a byte-wise xor gives the xor of the words. */
  lemma GetLE64Xor(a: seq<Byte>, b: seq<Byte>)
    requires |a| == 8 && |b| == 8
    ensures GetLE64(XorBytes(a, b)) == Xor64(GetLE64(a), GetLE64(b))
  {
    GetLE64OfXor(a, b);
    GetLE64Bytes(a);
    GetLE64Bytes(b);
    WordXor(a[0], a[1], a[2], a[3], a[4], a[5], a[6], a[7], b[0], b[1], b[2], b[3], b[4], b[5], b[6], b[7]);
    Xor64Def(GetLE64(a), GetLE64(b));
  }

  lemma GetLE64Bytes(a: seq<Byte>)
    requires |a| == 8
    ensures GetLE64(a) == Word(a[0], a[1], a[2], a[3], a[4], a[5], a[6], a[7])
  {
  }

  lemma GetLE64OfXor(a: seq<Byte>, b: seq<Byte>)
    requires |a| == 8 && |b| == 8
    ensures GetLE64(XorBytes(a, b))
         == Word(a[0] ^ b[0], a[1] ^ b[1], a[2] ^ b[2], a[3] ^ b[3], a[4] ^ b[4], a[5] ^ b[5], a[6] ^ b[6], a[7] ^ b[7])
  {
  }

  /** Packing commutes with xor: the word-wise xor of hctr2.go is a byte-wise xor. */
  lemma XorLE64(a: seq<Byte>, b: seq<Byte>)
    requires |a| == 8 && |b| == 8
    ensures PutLE64(Xor64(GetLE64(a), GetLE64(b))) == XorBytes(a, b)
  {
    GetLE64Xor(a, b);
    PutGetLE64(XorBytes(a, b));
  }

  lemma XorBytesHalves(x: seq<Byte>, y: seq<Byte>)
    requires |x| == 16 && |y| == 16
    ensures XorBytes(x[0..8], y[0..8]) + XorBytes(x[8..16], y[8..16]) == XorBytes(x, y)
  {
  }

  /** One word of xorBlock: load both words, xor, store. */
  function XorWord(a: seq<Byte>, b: seq<Byte>): (r: seq<Byte>)
    requires |a| == 8 && |b| == 8
    ensures r == XorBytes(a, b)
  {
    XorLE64(a, b);
    PutLE64(Xor64(GetLE64(a), GetLE64(b)))
  }

  /** One word of xorBlock3. */
  function XorWord3(a: seq<Byte>, b: seq<Byte>, c: seq<Byte>): (r: seq<Byte>)
    requires |a| == 8 && |b| == 8 && |c| == 8
    ensures r == XorBytes(XorBytes(a, b), c)
  {
    GetLE64Xor(a, b);
    XorLE64(XorBytes(a, b), c);
    PutLE64(Xor64(Xor64(GetLE64(a), GetLE64(b)), GetLE64(c)))
  }

  /** xorBlock: z = x ^ y, computed as two little-endian 64-bit words. */
  method XorBlock(x: Block, y: Block) returns (z: Block)
    ensures z == XorBytes(x, y)
  {
    XorBytesHalves(x, y);
    z := XorWord(x[0..8], y[0..8]) + XorWord(x[8..16], y[8..16]);
  }

  /** xorBlock3: z = v ^ x ^ y, high word first as in hctr2.go. */
  method XorBlock3(v: Block, x: Block, y: Block) returns (z: Block)
    ensures z == XorBytes(XorBytes(v, x), y)
  {
    var z1 := XorWord3(v[8..16], x[8..16], y[8..16]);
    var z0 := XorWord3(v[0..8], x[0..8], y[0..8]);
    ghost var w := XorBytes(v, x);
    XorBytesHalves(v, x);
    assert w[0..8] == XorBytes(v[0..8], x[0..8]);
    assert w[8..16] == XorBytes(v[8..16], x[8..16]);
    XorBytesHalves(w, y);
    z := z0 + z1;
  }

  lemma ByteXorComm(a: Byte, b: Byte)
    ensures a ^ b == b ^ a
  {
  }

  lemma XorBytesComm(x: seq<Byte>, y: seq<Byte>)
    requires |x| == |y|
    ensures XorBytes(x, y) == XorBytes(y, x)
  {
    forall j | 0 <= j < |x|
      ensures XorBytes(x, y)[j] == XorBytes(y, x)[j]
    {
      ByteXorComm(x[j], y[j]);
    }
  }

  lemma ByteXorAssoc(a: Byte, b: Byte, c: Byte)
    ensures (a ^ b) ^ c == a ^ (b ^ c)
  {
  }

  lemma XorBytesAssoc(x: seq<Byte>, y: seq<Byte>, z: seq<Byte>)
    requires |x| == |y| == |z|
    ensures XorBytes(XorBytes(x, y), z) == XorBytes(x, XorBytes(y, z))
  {
    forall j | 0 <= j < |x|
      ensures XorBytes(XorBytes(x, y), z)[j] == XorBytes(x, XorBytes(y, z))[j]
    {
      ByteXorAssoc(x[j], y[j], z[j]);
    }
  }

  /** The 16-byte blocks of a string whose length is a multiple of 16. */
  function Chunks(data: seq<Byte>): (xs: seq<Block>)
    requires |data| % 16 == 0
    ensures |xs| == |data| / 16
    decreases |data|
  {
    if |data| == 0 then [] else [data[..16]] + Chunks(data[16..])
  }

  /** Block i is bytes 16i..16i+16. */
  lemma {:induction false} ChunksAt(data: seq<Byte>, i: nat)
    requires |data| % 16 == 0 && i < |data| / 16
    ensures Chunks(data)[i] == data[16 * i..16 * i + 16]
    decreases i
  {
    if i > 0 {
      ChunksAt(data[16..], i - 1);
    }
  }

  /** The blocks of a concatenation are the blocks of each part. */
  lemma {:induction false} ChunksAppend(a: seq<Byte>, b: seq<Byte>)
    requires |a| % 16 == 0 && |b| % 16 == 0
    ensures Chunks(a + b) == Chunks(a) + Chunks(b)
    decreases |a|
  {
    if |a| == 0 {
      assert a + b == b;
    } else {
      ChunksAppend(a[16..], b);
      assert (a + b)[..16] == a[..16];
      assert (a + b)[16..] == a[16..] + b;
    }
  }

  function Min(a: int, b: int): int { if a < b then a else b }

  /** The number of bytes `xor(z, x, y, n)` writes. */
  function XorCount(z: seq<Byte>, x: seq<Byte>, y: seq<Byte>, n: int): nat
  {
    if n <= 0 then 0 else Min(Min(n, |z|), Min(|x|, |y|))
  }

  /** xor: z[i] = x[i] ^ y[i] for every i below n and below all three
      lengths; the rest of z is left alone. */
  method XorN(z: seq<Byte>, x: seq<Byte>, y: seq<Byte>, n: int) returns (r: seq<Byte>)
    ensures var w := XorCount(z, x, y, n); r == XorBytes(x[..w], y[..w]) + z[w..]
  {
    r := z;
    var i := 0;
    while i < n && i < |r| && i < |x| && i < |y|
      invariant 0 <= i <= |r| && |r| == |z|
      invariant i <= XorCount(z, x, y, n)
      invariant forall k | 0 <= k < i :: r[k] == x[k] ^ y[k]
      invariant forall k | i <= k < |z| :: r[k] == z[k]
    {
      r := r[i := x[i] ^ y[i]];
      i := i + 1;
    }
    var w := XorCount(z, x, y, n);
    assert r == XorBytes(x[..w], y[..w]) + z[w..];
  }

  /** A Go slice: the bytes it holds and where they live. `base` names the
      backing array and `start` the offset of the first element in it. */
  datatype Slice = Slice(base: nat, start: nat, data: seq<Byte>)
  {
    function Len(): nat { |data| }

    /** s[:n] */
    function Prefix(n: nat): (r: Slice)
      requires n <= Len()
      ensures r.base == base && r.start == start && r.Len() == n
    {
      Slice(base, start, data[..n])
    }
  }

  /** internal/subtle.InexactOverlap: both slices are non-empty, share a
      backing array, start at different addresses, and their address
      ranges intersect. */
  predicate InexactOverlap(x: Slice, y: Slice)
  {
    && x.Len() > 0 && y.Len() > 0
    && x.base == y.base
    && x.start != y.start
    && x.start <= y.start + y.Len() - 1
    && y.start <= x.start + x.Len() - 1
  }

  /** Exact aliasing and disjoint slices are both allowed. */
  lemma OverlapCases(x: Slice, y: Slice)
    ensures x.base == y.base && x.start == y.start ==> !InexactOverlap(x, y)
    ensures x.base != y.base ==> !InexactOverlap(x, y)
    ensures x.base == y.base && x.Len() > 0 && y.Len() > 0 && x.start < y.start < x.start + x.Len()
            ==> InexactOverlap(x, y)
  {
  }
}
