/** XCTR, the counter mode of HCTR2: block i of the keystream, counting
    from 1, is E(bin64(i) || 0^64 xor S), and the output is the input xor
    the keystream, cut to the input's length. `ApplyFrom` is the reference
    definition; `Generic` is the loop of hctr2.go, proved to compute it. */
module Xctr {
  import opened Bytes

  /** uint64(i): the counter as the 64-bit word Go stores. */
  function Uint64(i: nat): bv64
  {
    (i % 0x1_0000_0000_0000_0000) as bv64
  }

  /** The counter block bin64(i) || 0^64. */
  function CounterBlock(i: nat): Block
  {
    PutLE64(Uint64(i)) + PutLE64(0)
  }

  /** Read back little-endian, the counter block's low word is the counter
      modulo 2^64, and its high eight bytes are zero. */
  lemma CounterBlockWords(i: nat)
    ensures GetLE64(CounterBlock(i)[..8]) == Uint64(i)
    ensures CounterBlock(i)[8..] == Zeros(8)
  {
    var b := CounterBlock(i);
    assert b[..8] == PutLE64(Uint64(i)) && b[8..] == PutLE64(0);
    GetPutLE64(Uint64(i));
  }

  /** Keystream block i for the block cipher `E` and nonce S. */
  function KeystreamBlock(E: Block -> Block, nonce: Block, i: nat): Block
  {
    E(XorBytes(CounterBlock(i), nonce))
  }

  /** The keystream of `E` and S, block by block. */
  function Keystream(E: Block -> Block, nonce: Block): nat -> Block
  {
    i => KeystreamBlock(E, nonce, i)
  }

  /** The counter-mode transform of `src` under the keystream `ks`, whose
      first block uses counter `i`: each block (the last may be partial)
      is xor-ed with the matching prefix of its keystream block. */
  function ApplyFrom(ks: nat -> Block, i: nat, src: seq<Byte>): (r: seq<Byte>)
    ensures |r| == |src|
    decreases |src|
  {
    if |src| == 0 then []
    else
      var m := Min(16, |src|);
      XorBytes(ks(i)[..m], src[..m]) + ApplyFrom(ks, i + 1, src[m..])
  }

  /** XCTR_k(S)[0; |src|] xor src, counters from 1. */
  function Apply(E: Block -> Block, nonce: Block, src: seq<Byte>): (r: seq<Byte>)
    ensures |r| == |src|
  {
    ApplyFrom(Keystream(E, nonce), 1, src)
  }

  /** Byte j of the output is byte j mod 16 of keystream block
      i + j / 16, xor-ed with byte j of the input. */
  lemma {:induction false} ApplyAt(ks: nat -> Block, i: nat, src: seq<Byte>, j: nat)
    requires j < |src|
    ensures ApplyFrom(ks, i, src)[j] == ks(i + j / 16)[j % 16] ^ src[j]
    decreases |src|
  {
    var m := Min(16, |src|);
    if j >= m {
      ApplyAt(ks, i + 1, src[m..], j - 16);
      assert (j - 16) / 16 == j / 16 - 1 && (j - 16) % 16 == j % 16;
    }
  }

  /** Whole blocks first, the rest continues with the next counter. */
  lemma {:induction false} ApplyAppend(ks: nat -> Block, i: nat, a: seq<Byte>, b: seq<Byte>)
    requires |a| % 16 == 0
    ensures ApplyFrom(ks, i, a + b) == ApplyFrom(ks, i, a) + ApplyFrom(ks, i + |a| / 16, b)
    decreases |a|
  {
    if |a| != 0 {
      ApplyAppend(ks, i + 1, a[16..], b);
      assert (a + b)[..16] == a[..16];
      assert (a + b)[16..] == a[16..] + b;
    } else {
      assert a + b == b;
    }
  }

  /** XCTR with the same cipher and nonce is its own inverse. */
  lemma {:induction false} ApplyInvolution(ks: nat -> Block, i: nat, src: seq<Byte>)
    ensures ApplyFrom(ks, i, ApplyFrom(ks, i, src)) == src
    decreases |src|
  {
    if |src| != 0 {
      var m := Min(16, |src|);
      var k := ks(i)[..m];
      var r := ApplyFrom(ks, i, src);
      assert r[..m] == XorBytes(k, src[..m]);
      assert r[m..] == ApplyFrom(ks, i + 1, src[m..]);
      XorBytesCancelLeft(k, src[..m]);
      ApplyInvolution(ks, i + 1, src[m..]);
      assert src == src[..m] + src[m..];
    }
  }

  /** What xctr(dst, src, S) leaves in dst: the first min(|dst|, |src|)
      bytes become XCTR output, the others keep their value. */
  function Write(E: Block -> Block, nonce: Block, dst: seq<Byte>, src: seq<Byte>): (r: seq<Byte>)
    ensures |r| == |dst|
  {
    var w := Min(|dst|, |src|);
    Apply(E, nonce, src[..w]) + dst[w..]
  }

  /** An empty source leaves dst as it was. */
  lemma WriteEmpty(E: Block -> Block, nonce: Block, dst: seq<Byte>)
    ensures Write(E, nonce, dst, []) == dst
  {
    assert dst[Min(|dst|, 0)..] == dst;
  }

  /** The loop of Cipher.xctr for a block cipher without its own XCTR:
      one block per counter while both buffers hold a whole block, then
      a partial block with the next counter through `xor`. */
  method Generic(E: Block -> Block, dst: seq<Byte>, src: seq<Byte>, nonce: Block) returns (out: seq<Byte>)
    ensures out == Write(E, nonce, dst, src)
  {
    var i, off;
    out, i, off := GenericBlocks(E, dst, src, nonce);
    if |src| - off > 0 {
      var k := TailCounter(E, nonce, i);
      var rest := XorN(out[off..], k, src[off..], |src| - off);
      TailStep(Keystream(E, nonce), i, dst, src, off, out, rest);
      out := out[..off] + rest;
    } else {
      assert src[..Min(|dst|, |src|)] == src[..off];
    }
  }

  /** The keystream block of the partial tail, computed as in the tail of
      Cipher.xctr: the counter block xor-ed with S through `xor`, then
      encrypted. */
  method TailCounter(E: Block -> Block, nonce: Block, i: nat) returns (k: Block)
    ensures k == Keystream(E, nonce)(i)
  {
    var ctr := CounterBlock(i);
    var c := XorN(ctr, ctr, nonce, 16);
    assert c == XorBytes(ctr, nonce) by {
      assert XorCount(ctr, ctr, nonce, 16) == 16;
      assert ctr[..16] == ctr && nonce[..16] == nonce && ctr[16..] == [];
    }
    k := E(c);
  }

  /** The whole-block loop of Cipher.xctr: it stops at the first counter
      `i` for which either buffer has less than a block left at `off`. */
  method GenericBlocks(E: Block -> Block, dst: seq<Byte>, src: seq<Byte>, nonce: Block)
    returns (out: seq<Byte>, i: nat, off: nat)
    ensures i >= 1 && off == 16 * (i - 1)
    ensures off <= |src| && off <= |dst| && (|src| - off < 16 || |dst| - off < 16)
    ensures |out| == |dst|
    ensures out[..off] == Apply(E, nonce, src[..off]) && out[off..] == dst[off..]
  {
    ghost var ks := Keystream(E, nonce);
    out := dst;
    i := 1;
    off := 0;
    while |src| - off >= 16 && |dst| - off >= 16
      invariant BlocksDone(ks, dst, src, out, i, off)
      decreases |src| - off
    {
      var ctr := CounterBlock(i);
      ctr := XorBlock(ctr, nonce);
      ctr := E(ctr);
      assert ctr == ks(i);
      var b := XorBlock(ctr, src[off..off + 16]);
      LoopStep(ks, dst, src, out, i, off, b);
      out := out[..off] + b + out[off + 16..];
      off := off + 16;
      i := i + 1;
    }
  }

  /** The invariant of the whole-block loop: `i - 1` blocks are done. */
  ghost predicate BlocksDone(ks: nat -> Block, dst: seq<Byte>, src: seq<Byte>, out: seq<Byte>, i: nat, off: nat)
  {
    && i >= 1 && off == 16 * (i - 1)
    && off <= |src| && off <= |dst| && |out| == |dst|
    && out[..off] == ApplyFrom(ks, 1, src[..off])
    && out[off..] == dst[off..]
  }

  /** One block of the loop keeps its invariant. */
  lemma LoopStep(ks: nat -> Block, dst: seq<Byte>, src: seq<Byte>, out: seq<Byte>, i: nat, off: nat, b: seq<Byte>)
    requires BlocksDone(ks, dst, src, out, i, off)
    requires off + 16 <= |src| && off + 16 <= |dst|
    requires b == XorBytes(ks(i), src[off..off + 16])
    ensures BlocksDone(ks, dst, src, out[..off] + b + out[off + 16..], i + 1, off + 16)
  {
    FullStep(ks, i, src, off, b);
    var out' := out[..off] + b + out[off + 16..];
    assert out'[..off + 16] == out[..off] + b;
    assert out'[off + 16..] == out[off + 16..];
  }

  /** One whole block written by the loop extends the output. */
  lemma FullStep(ks: nat -> Block, i: nat, src: seq<Byte>, off: nat, b: seq<Byte>)
    requires i >= 1 && off == 16 * (i - 1) && off + 16 <= |src|
    requires b == XorBytes(ks(i), src[off..off + 16])
    ensures ApplyFrom(ks, 1, src[..off + 16]) == ApplyFrom(ks, 1, src[..off]) + b
  {
    ApplyAppend(ks, 1, src[..off], src[off..off + 16]);
    assert src[..off + 16] == src[..off] + src[off..off + 16];
    OneBlock(ks, i, src[off..off + 16]);
    assert ks(i)[..16] == ks(i);
  }

  /** A single block, whole or partial, is xor-ed with the prefix of
      its keystream block. */
  lemma OneBlock(ks: nat -> Block, i: nat, piece: seq<Byte>)
    requires 0 < |piece| <= 16
    ensures ApplyFrom(ks, i, piece) == XorBytes(ks(i)[..|piece|], piece)
  {
    var t := |piece|;
    assert Min(16, t) == t;
    assert piece[..t] == piece && piece[t..] == [];
  }

  /** The partial block written by `xor` completes the output. */
  lemma TailStep(ks: nat -> Block, i: nat, dst: seq<Byte>, src: seq<Byte>, off: nat,
                 out: seq<Byte>, rest: seq<Byte>)
    requires i >= 1 && off == 16 * (i - 1) && off < |src| && off <= |dst| && |out| == |dst|
    requires |src| - off < 16 || |dst| - off < 16
    requires out[..off] == ApplyFrom(ks, 1, src[..off]) && out[off..] == dst[off..]
    requires var w := XorCount(out[off..], ks(i), src[off..], |src| - off);
             rest == XorBytes(ks(i)[..w], src[off..][..w]) + out[off..][w..]
    ensures out[..off] + rest == ApplyFrom(ks, 1, src[..Min(|dst|, |src|)]) + dst[Min(|dst|, |src|)..]
  {
    var w := Min(|dst|, |src|);
    var t := w - off;
    assert XorCount(out[off..], ks(i), src[off..], |src| - off) == t;
    var x := XorBytes(ks(i)[..t], src[off..][..t]);
    var y := out[off..][t..];
    assert rest == x + y;
    TailPiece(ks, i, src, off, w);
    TailJoin(ks, i, src, off, w);
    assert y == dst[w..];
    assert out[..off] + (x + y) == (out[..off] + x) + y;
  }

  /** The bytes `xor` writes are the tail block of the transform. */
  lemma TailPiece(ks: nat -> Block, i: nat, src: seq<Byte>, off: nat, w: nat)
    requires off <= w <= |src| && w - off <= 16
    ensures XorBytes(ks(i)[..w - off], src[off..][..w - off]) == ApplyFrom(ks, i, src[off..w])
  {
    var piece := src[off..w];
    assert src[off..][..w - off] == piece;
    if w - off > 0 {
      OneBlock(ks, i, piece);
    }
  }

  /** The whole blocks, then the tail with the next counter. */
  lemma TailJoin(ks: nat -> Block, i: nat, src: seq<Byte>, off: nat, w: nat)
    requires i >= 1 && off == 16 * (i - 1) && off <= w <= |src|
    ensures ApplyFrom(ks, 1, src[..w]) == ApplyFrom(ks, 1, src[..off]) + ApplyFrom(ks, i, src[off..w])
  {
    ApplyAppend(ks, 1, src[..off], src[off..w]);
    assert src[..w] == src[..off] + src[off..w];
  }
}
