/** The AES wrapper of aes_asm.go: key-schedule sizing, the argument checks
    of Encrypt and Decrypt, and aesCipher.xctr, which hands whole blocks to
    the emitted xctrAsm routine and finishes a partial block itself. The
    AES instructions, expandKeyAsm and decryptBlockAsm are foreign assembly
    and appear as function parameters. */
module Aes {
  import opened Bytes
  import opened Results
  import opened Rounds
  import opened Xctr
  import opened XctrAsm

  /** BlockSize: AES works on 16-byte blocks. */
  const BlockSize: nat := 16

  /** aesCipher{enc, dec}: the expanded encryption and decryption schedules. */
  datatype AesCipher = AesCipher(enc: seq<Word>, dec: seq<Word>)

  /** The foreign routines: the AES instructions the emitted code uses,
      expandKeyAsm (from nr and the key, the two schedules it writes) and
      decryptBlockAsm (from nr, the decryption schedule and a block). */
  datatype Primitives = Primitives(
    fns: RoundFns,
    expandKey: (int, seq<Byte>) -> (seq<Word>, seq<Word>),
    decryptBlock: (int, seq<Word>, Block) -> Block)

  /** len(c.enc)/4 - 1: the round count every routine is given. */
  function Nr(c: AesCipher): int
  {
    |c.enc| / 4 - 1
  }

  /** The encryption schedule holds a round key for every step of the
      rounds `Nr(c)` selects. */
  predicate Valid(c: AesCipher)
  {
    |c.enc| >= 4 * (RoundsOf(Nr(c)) + 1)
  }

  /** A slice made with make([]uint32, n) and then filled by the routine:
      the first n words it writes, zeros after what it does not write. */
  function Fill(ws: seq<Word>, n: nat): (r: seq<Word>)
    ensures |r| == n
  {
    if |ws| >= n then ws[..n] else ws + seq(n - |ws|, _ => 0 as Word)
  }

  /** newCipher on a machine with AES instructions. NewAES lets only 16-,
      24- and 32-byte keys through. Each schedule has room for Nr + 1 round
      keys, and expandKeyAsm is told the same round count that Encrypt,
      Decrypt and xctr later derive from the schedule length. */
  function NewCipher(p: Primitives, key: seq<Byte>): (c: AesCipher)
    requires |key| == 16 || |key| == 24 || |key| == 32
    ensures |c.enc| == |key| + 28 && |c.dec| == |key| + 28
    ensures Nr(c) == 6 + |key| / 4
    ensures Nr(c) == (if |key| == 16 then 10 else if |key| == 24 then 12 else 14)
    ensures RoundsOf(Nr(c)) == Nr(c) && |c.enc| == 4 * (Nr(c) + 1)
    ensures Valid(c)
    ensures c.enc == Fill(p.expandKey(Nr(c), key).0, |c.enc|)
    ensures c.dec == Fill(p.expandKey(Nr(c), key).1, |c.dec|)
  {
    var n := |key| + 28;
    var schedules := p.expandKey(6 + |key| / 4, key);
    AesCipher(Fill(schedules.0, n), Fill(schedules.1, n))
  }

  /** encryptBlockAsm(len(c.enc)/4-1, &c.enc[0], ...): taken to run the
      same AESENC schedule that state.encrypt emits. */
  function EncryptBlock(p: Primitives, c: AesCipher): Block -> Block
    requires Valid(c)
  {
    ScheduleCipher(p.fns, c.enc, Nr(c))
  }

  /** decryptBlockAsm(len(c.dec)/4-1, &c.dec[0], ...). */
  function DecryptBlock(p: Primitives, c: AesCipher): Block -> Block
  {
    v => p.decryptBlock(Nr(c), c.dec, v)
  }

  /** The three checks Encrypt and Decrypt make, in order; None when all
      pass. */
  function BlockGuard(dst: Slice, src: Slice): (r: Option<string>)
    ensures r.None? <==> src.Len() >= BlockSize && dst.Len() >= BlockSize
                         && !InexactOverlap(dst.Prefix(BlockSize), src.Prefix(BlockSize))
  {
    if src.Len() < BlockSize then Some("hctr2: input not full block")
    else if dst.Len() < BlockSize then Some("hctr2: output not full block")
    else if InexactOverlap(dst.Prefix(BlockSize), src.Prefix(BlockSize)) then Some("hctr2: invalid buffer overlap")
    else None
  }

  /** aesCipher.Encrypt: the new contents of dst. It panics when src or
      dst is shorter than a block or when their first blocks overlap
      inexactly; otherwise dst's first block becomes the encryption of
      src's first block and nothing else changes. */
  function Encrypt(p: Primitives, c: AesCipher, dst: Slice, src: Slice): (r: Result<seq<Byte>>)
    requires Valid(c)
    ensures src.Len() < BlockSize ==> r == Panic("hctr2: input not full block")
    ensures src.Len() >= BlockSize && dst.Len() < BlockSize ==> r == Panic("hctr2: output not full block")
    ensures r.Ok? <==> BlockGuard(dst, src).None?
    ensures r.Ok? ==> |r.value| == dst.Len() && r.value[BlockSize..] == dst.data[BlockSize..]
    ensures r.Ok? ==> r.value[..BlockSize] == EncryptBlock(p, c)(src.data[..BlockSize])
  {
    match BlockGuard(dst, src)
    case Some(msg) => Panic(msg)
    case None => Ok(EncryptBlock(p, c)(src.data[..BlockSize]) + dst.data[BlockSize..])
  }

  /** aesCipher.Decrypt: the same checks, then dst's first block becomes
      decryptBlockAsm of src's first block. */
  function Decrypt(p: Primitives, c: AesCipher, dst: Slice, src: Slice): (r: Result<seq<Byte>>)
    ensures src.Len() < BlockSize ==> r == Panic("hctr2: input not full block")
    ensures src.Len() >= BlockSize && dst.Len() < BlockSize ==> r == Panic("hctr2: output not full block")
    ensures r.Ok? <==> BlockGuard(dst, src).None?
    ensures r.Ok? ==> |r.value| == dst.Len() && r.value[BlockSize..] == dst.data[BlockSize..]
    ensures r.Ok? ==> r.value[..BlockSize] == DecryptBlock(p, c)(src.data[..BlockSize])
  {
    match BlockGuard(dst, src)
    case Some(msg) => Panic(msg)
    case None => Ok(DecryptBlock(p, c)(src.data[..BlockSize]) + dst.data[BlockSize..])
  }

  /** Encrypt and Decrypt refuse exactly the same arguments, with the same
      message. */
  lemma SameGuards(p: Primitives, c: AesCipher, dst: Slice, src: Slice)
    requires Valid(c)
    ensures Encrypt(p, c, dst, src).Panic? <==> Decrypt(p, c, dst, src).Panic?
    ensures Encrypt(p, c, dst, src).Panic? ==> Encrypt(p, c, dst, src).msg == Decrypt(p, c, dst, src).msg
  {
  }

  /** Encrypting in place (dst and src the same slice) is allowed. */
  lemma InPlace(p: Primitives, c: AesCipher, s: Slice)
    requires Valid(c) && s.Len() >= BlockSize
    ensures Encrypt(p, c, s, s).Ok? && Decrypt(p, c, s, s).Ok?
  {
    OverlapCases(s.Prefix(BlockSize), s.Prefix(BlockSize));
  }

  /** When decryptBlockAsm inverts encryptBlockAsm, decrypting the block
      Encrypt wrote, back into the buffer it came from, restores it. */
  lemma BlockRoundTrip(p: Primitives, c: AesCipher, dst: Slice, src: Slice)
    requires Valid(c) && Encrypt(p, c, dst, src).Ok?
    requires forall v: Block :: DecryptBlock(p, c)(EncryptBlock(p, c)(v)) == v
    ensures var ct := Slice(dst.base, dst.start, Encrypt(p, c, dst, src).value);
            && Decrypt(p, c, src, ct).Ok?
            && Decrypt(p, c, src, ct).value[..BlockSize] == src.data[..BlockSize]
  {
    var ct := Slice(dst.base, dst.start, Encrypt(p, c, dst, src).value);
    assert InexactOverlap(src.Prefix(BlockSize), ct.Prefix(BlockSize))
        == InexactOverlap(dst.Prefix(BlockSize), src.Prefix(BlockSize));
  }

  /** aesCipher.xctr, the branch that is compiled in: the n = len(src)/16
      whole blocks go to xctrAsm with counters 1..n, then a partial block
      uses counter n + 1. xctrAsm stores n whole blocks through &dst[0],
      so a dst shorter than that panics: at &dst[0] when it is empty, and
      otherwise at dst[n*16:] after the routine has written past its end. */
  method XctrBulk(p: Primitives, c: AesCipher, dst: seq<Byte>, src: seq<Byte>, nonce: Block)
    returns (r: Result<seq<Byte>>)
    requires Valid(c)
    ensures r.Panic? <==> |dst| < 16 * (|src| / 16)
    ensures r.Ok? ==> r.value == Write(EncryptBlock(p, c), nonce, dst, src)
    ensures |src| == 0 ==> r == Ok(dst)
  {
    var n := |src| / 16;
    var out := dst;
    if n > 0 {
      if |dst| == 0 {
        return Panic("index out of range");
      }
      if |dst| < 16 * n {
        return Panic("slice bounds out of range");
      }
      ghost var trace;
      out, trace := XctrAsm.XctrAsm(p.fns, c.enc, Nr(c), dst, src, n, nonce);
      assert out[..16 * n] == Apply(EncryptBlock(p, c), nonce, src[..16 * n]);
    } else {
      assert out[..0] == Apply(EncryptBlock(p, c), nonce, src[..0]);
    }
    out := Tail(EncryptBlock(p, c), nonce, dst, src, n, out);
    if |src| == 0 {
      assert src == [];
      WriteEmpty(EncryptBlock(p, c), nonce, dst);
    }
    r := Ok(out);
  }

  /** aesCipher.xctr, the branch behind `if true`: one block per counter
      through encryptBlockAsm while both buffers hold a whole block (the
      loop of the generic xctr), then the partial block with counter
      n + 1. It never panics, and agrees with the bulk branch whenever
      that one does not panic. */
  method XctrPerBlock(p: Primitives, c: AesCipher, dst: seq<Byte>, src: seq<Byte>, nonce: Block)
    returns (out: seq<Byte>)
    requires Valid(c)
    ensures out == Write(EncryptBlock(p, c), nonce, dst, src)
  {
    var E := EncryptBlock(p, c);
    var i, off;
    out, i, off := GenericBlocks(E, dst, src, nonce);
    var n := i - 1;
    out := Tail(E, nonce, dst, src, n, out);
  }

  /** The end of aesCipher.xctr, shared by both branches: after n whole
      blocks, a non-empty rest of src is xor-ed with keystream block n + 1
      through `xor`, which stops at the end of dst. */
  method Tail(E: Block -> Block, nonce: Block, dst: seq<Byte>, src: seq<Byte>, n: nat, out: seq<Byte>)
    returns (r: seq<Byte>)
    requires 16 * n <= |src| && 16 * n <= |dst| && |out| == |dst|
    requires |src| - 16 * n < 16 || |dst| - 16 * n < 16
    requires out[..16 * n] == Apply(E, nonce, src[..16 * n])
    requires out[16 * n..] == dst[16 * n..]
    ensures r == Write(E, nonce, dst, src)
  {
    var off := 16 * n;
    if |src| - off > 0 {
      var k := KeyBlock(E, nonce, n + 1);
      var rest := XorN(out[off..], k, src[off..], |src| - off);
      TailStep(Keystream(E, nonce), n + 1, dst, src, off, out, rest);
      r := out[..off] + rest;
    } else {
      r := out;
      assert src[..Min(|dst|, |src|)] == src[..off];
      assert out == out[..off] + out[off..];
    }
  }

  /** The counter block for counter i, xor-ed with the nonce by xorBlock
      and encrypted in place: keystream block i. */
  method KeyBlock(E: Block -> Block, nonce: Block, i: nat) returns (k: Block)
    ensures k == Keystream(E, nonce)(i)
  {
    var ctr := CounterBlock(i);
    ctr := XorBlock(ctr, nonce);
    k := E(ctr);
  }
}
