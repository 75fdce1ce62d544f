/** The control flow of xctrAsm as declareXctrAsm in asm/asm.go emits it:
    first `nblocks mod 4` single blocks, then groups of four consecutive
    counters, the counter starting at 1 and the byte offset at 0. Each
    counter block is the counter in the low 64 bits with a zero high half,
    xor-ed with the nonce, encrypted by the round schedule of
    `state.encrypt` and xor-ed into the source block. */
module XctrAsm {
  import opened Bytes
  import opened Xctr
  import opened Rounds

  /** (counter, byte offset) for each block, in the order they are used. */
  datatype Use = Use(ctr: nat, off: nat)

  /** Counters 1..n in order, counter i at byte offset 16(i - 1). */
  function Uses(n: nat): (us: seq<Use>)
    ensures |us| == n
    ensures forall j | 0 <= j < n :: us[j] == Use(j + 1, 16 * j)
  {
    seq(n, j requires 0 <= j < n => Use(j + 1, 16 * j))
  }

  lemma UsesSnoc(n: nat)
    ensures Uses(n) + [Use(n + 1, 16 * n)] == Uses(n + 1)
  {
  }

  /** The invariant of both loops: counters 1..idx-1 are done, in order. */
  ghost predicate Progress(ks: nat -> Block, dst: seq<Byte>, src: seq<Byte>, out: seq<Byte>,
                           idx: nat, off: nat, trace: seq<Use>)
  {
    BlocksDone(ks, dst, src, out, idx, off) && trace == Uses(idx - 1)
  }

  /** xctrAsm(nr, xk, dst, src, nblocks, nonce). The routine reads and
      writes nblocks whole blocks of raw memory, so its callers must
      supply that many. `trace` records each counter with the offset it is
      written at. */
  method XctrAsm(fns: RoundFns, xk: seq<Word>, nrounds: int, dst: seq<Byte>, src: seq<Byte>,
                 nblocks: nat, nonce: Block)
    returns (out: seq<Byte>, ghost trace: seq<Use>)
    requires |xk| >= 4 * (RoundsOf(nrounds) + 1)
    requires 16 * nblocks <= |src| && 16 * nblocks <= |dst|
    ensures out == Apply(ScheduleCipher(fns, xk, nrounds), nonce, src[..16 * nblocks]) + dst[16 * nblocks..]
    ensures trace == Uses(nblocks)
  {
    var ops := EncryptSchedule(nrounds);
    ghost var ks := Keystream(ScheduleCipher(fns, xk, nrounds), nonce);
    KeystreamLink(fns, xk, nrounds, ops, nonce);
    var idx, off;
    out, idx, off, trace := SingleLoop(fns, xk, ops, ks, dst, src, nblocks, nonce);
    out, idx, off, trace := WideLoop(fns, xk, ops, ks, dst, src, nblocks, nonce, out, idx, off, trace);
    assert out == out[..off] + out[off..];
  }

  /** The single-block loop: nblocks mod 4 blocks, skipped when that is
      zero. The emitted loop tests at the bottom; it is entered with
      off == 0 != nsingle, so the while loop here runs the same times. */
  method SingleLoop(fns: RoundFns, xk: seq<Word>, ops: seq<Op>, ghost ks: nat -> Block,
                    dst: seq<Byte>, src: seq<Byte>, nblocks: nat, nonce: Block)
    returns (out: seq<Byte>, idx: nat, off: nat, ghost trace: seq<Use>)
    requires KeyLink(ks, fns, xk, ops, nonce)
    requires 16 * nblocks <= |src| && 16 * nblocks <= |dst|
    ensures off == 16 * (nblocks % 4)
    ensures Progress(ks, dst, src, out, idx, off, trace)
  {
    idx := 1;
    off := 0;
    out := dst;
    trace := [];
    var nsingle := nblocks % 4;
    if nsingle != 0 {
      nsingle := nsingle * 16;
      assert nsingle <= |src| && nsingle <= |dst|;
      // The blocks still to do, so that every bound below stays linear.
      ghost var left: nat := nblocks % 4;
      while off != nsingle
        invariant off + 16 * left == nsingle == 16 * (nblocks % 4)
        invariant Progress(ks, dst, src, out, idx, off, trace)
        decreases left
      {
        out, trace := SingleStep(fns, xk, ops, ks, dst, src, nonce, out, idx, off, trace);
        off := off + 16;
        idx := idx + 1;
        left := left - 1;
      }
    }
  }

  /** One iteration of the single-block loop: one counter block, xor-ed
      with the nonce, encrypted, then xor-ed into the source block and
      stored. */
  method SingleStep(fns: RoundFns, xk: seq<Word>, ops: seq<Op>, ghost ks: nat -> Block,
                    ghost dst: seq<Byte>, src: seq<Byte>, nonce: Block,
                    out0: seq<Byte>, idx: nat, off: nat, ghost trace0: seq<Use>)
    returns (out: seq<Byte>, ghost trace: seq<Use>)
    requires KeyLink(ks, fns, xk, ops, nonce)
    requires off + 16 <= |src| && off + 16 <= |dst|
    requires Progress(ks, dst, src, out0, idx, off, trace0)
    ensures BlocksDone(ks, dst, src, out, idx + 1, off + 16)
    ensures Progress(ks, dst, src, out, idx + 1, off + 16, trace)
  {
    var enc := EncryptCounters(fns, xk, ops, ks, nonce, idx, 1);
    out, trace := StoreBlock(ks, dst, src, out0, idx, off, trace0, enc[0]);
  }

  /** The wide loop: nblocks / 4 groups of four consecutive counters,
      skipped when there is no whole group. */
  method WideLoop(fns: RoundFns, xk: seq<Word>, ops: seq<Op>, ghost ks: nat -> Block,
                  dst: seq<Byte>, src: seq<Byte>, nblocks: nat, nonce: Block,
                  out0: seq<Byte>, idx0: nat, off0: nat, ghost trace0: seq<Use>)
    returns (out: seq<Byte>, idx: nat, off: nat, ghost trace: seq<Use>)
    requires KeyLink(ks, fns, xk, ops, nonce)
    requires 16 * nblocks <= |src| && 16 * nblocks <= |dst|
    requires off0 == 16 * (nblocks % 4)
    requires Progress(ks, dst, src, out0, idx0, off0, trace0)
    ensures off == 16 * nblocks
    ensures Progress(ks, dst, src, out, idx, off, trace)
  {
    out, idx, off, trace := out0, idx0, off0, trace0;
    ghost var q := nblocks / 4;
    assert 16 * nblocks == off0 + 64 * q;
    var nwide := nblocks / 4;
    if nwide != 0 {
      nwide := nwide * 64 + off;
      ghost var g := 0;
      while off != nwide
        invariant nwide == off0 + 64 * q == 16 * nblocks
        invariant g <= q && off == off0 + 64 * g
        invariant Progress(ks, dst, src, out, idx, off, trace)
        decreases q - g
      {
        out, trace := WideGroup(fns, xk, ops, ks, dst, src, nonce, out, idx, off, trace);
        off := off + 64;
        idx := idx + 4;
        g := g + 1;
      }
    }
  }

  /** One iteration of the wide loop: four counter blocks, each xor-ed
      with the nonce, encrypted together, then xor-ed into four source
      blocks and stored. */
  method WideGroup(fns: RoundFns, xk: seq<Word>, ops: seq<Op>, ghost ks: nat -> Block,
                   ghost dst: seq<Byte>, src: seq<Byte>, nonce: Block,
                   out0: seq<Byte>, idx: nat, off: nat, ghost trace0: seq<Use>)
    returns (out: seq<Byte>, ghost trace: seq<Use>)
    requires KeyLink(ks, fns, xk, ops, nonce)
    requires off + 64 <= |src| && off + 64 <= |dst|
    requires Progress(ks, dst, src, out0, idx, off, trace0)
    ensures BlocksDone(ks, dst, src, out, idx + 4, off + 64)
    ensures Progress(ks, dst, src, out, idx + 4, off + 64, trace)
  {
    var enc := EncryptCounters(fns, xk, ops, ks, nonce, idx, 4);
    out, trace := out0, trace0;
    var j := 0;
    while j < 4
      invariant 0 <= j <= 4
      invariant Progress(ks, dst, src, out, idx + j, off + 16 * j, trace)
    {
      out, trace := StoreBlock(ks, dst, src, out, idx + j, off + 16 * j, trace, enc[j]);
      j := j + 1;
    }
  }

  /** `ks` is the keystream of the schedule `ops` over `xk` and nonce S. */
  ghost predicate KeyLink(ks: nat -> Block, fns: RoundFns, xk: seq<Word>, ops: seq<Op>, nonce: Block)
  {
    InBounds(ops, xk) && forall i: nat {:trigger CounterInput(nonce, i)} :: ks(i) == Run(fns, xk, ops, CounterInput(nonce, i))
  }

  /** Counter blocks idx..idx+n-1, each xor-ed with the nonce, run through
      the schedule together: keystream blocks idx..idx+n-1. */
  method EncryptCounters(fns: RoundFns, xk: seq<Word>, ops: seq<Op>, ghost ks: nat -> Block,
                         nonce: Block, idx: nat, n: nat)
    returns (enc: seq<Block>)
    requires KeyLink(ks, fns, xk, ops, nonce)
    ensures |enc| == n
    ensures forall j | 0 <= j < n :: enc[j] == ks(idx + j)
  {
    var ctrs := seq(n, j requires 0 <= j < n => CounterInput(nonce, idx + j));
    enc := RunMany(fns, xk, ops, ctrs);
    forall j | 0 <= j < n
      ensures enc[j] == ks(idx + j)
    {
      RunManyAt(fns, xk, ops, ctrs, j);
    }
  }

  /** Counter block i xor-ed with the nonce. */
  function CounterInput(nonce: Block, i: nat): Block
  {
    XorBytes(CounterBlock(i), nonce)
  }

  /** The keystream of the cipher the schedule runs is linked to it. */
  lemma KeystreamLink(fns: RoundFns, xk: seq<Word>, nrounds: int, ops: seq<Op>, nonce: Block)
    requires |xk| >= 4 * (RoundsOf(nrounds) + 1) && ops == Reference(RoundsOf(nrounds))
    ensures KeyLink(Keystream(ScheduleCipher(fns, xk, nrounds), nonce), fns, xk, ops, nonce)
  {
    ReferenceInBounds(RoundsOf(nrounds), xk);
  }

  /** One block: dst[off:off+16] = k xor src[off:off+16] for counter idx. */
  method StoreBlock(ghost ks: nat -> Block, ghost dst: seq<Byte>, src: seq<Byte>, out: seq<Byte>,
                    idx: nat, off: nat, ghost trace: seq<Use>, k: Block)
    returns (out': seq<Byte>, ghost trace': seq<Use>)
    requires Progress(ks, dst, src, out, idx, off, trace)
    requires off + 16 <= |src| && off + 16 <= |dst| && k == ks(idx)
    ensures Progress(ks, dst, src, out', idx + 1, off + 16, trace')
  {
    var b := XorBytes(k, src[off..off + 16]);
    LoopStep(ks, dst, src, out, idx, off, b);
    out' := out[..off] + b + out[off + 16..];
    UsesSnoc(idx - 1);
    trace' := trace + [Use(idx, off)];
  }
}
