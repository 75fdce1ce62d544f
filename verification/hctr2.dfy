/** HCTR2 as hctr2.go builds it: a POLYVAL hash of the tweak and the tail of
    the message, one block-cipher call on the first block, XCTR over the
    tail, and a second hash. The block cipher is either any cipher.Block
    (two functions on blocks) or the AES wrapper of aes_asm.go, whose xctr
    method the code prefers over the generic loop. */
module Hctr2 {
  import opened Bytes
  import opened Results
  import opened Field
  import opened Polyval
  import opened Xctr
  import Aes
  import opened HctrMode

  /** BlockSize: the only block size New accepts. */
  const BlockSize: nat := 16

  /** The cipher.Block given to New. `Generic` is any block cipher, with
      its BlockSize, Encrypt and Decrypt; `AesAsm` is aesCipher, the one
      implementation of xctrAble. */
  datatype BlockCipher =
    | Generic(size: int, encrypt: Block -> Block, decrypt: Block -> Block)
    | AesAsm(prims: Aes.Primitives, aes: Aes.AesCipher)

  /** An aesCipher always has a schedule long enough for its rounds. */
  predicate WellFormed(b: BlockCipher)
  {
    b.AesAsm? ==> Aes.Valid(b.aes)
  }

  /** block.BlockSize() */
  function BlockSizeOf(b: BlockCipher): int
  {
    if b.Generic? then b.size else Aes.BlockSize
  }

  /** block.Encrypt on one whole block. */
  function EncryptFn(b: BlockCipher): Block -> Block
    requires WellFormed(b)
  {
    if b.Generic? then b.encrypt else Aes.EncryptBlock(b.prims, b.aes)
  }

  /** block.Decrypt on one whole block. */
  function DecryptFn(b: BlockCipher): Block -> Block
  {
    if b.Generic? then b.decrypt else Aes.DecryptBlock(b.prims, b.aes)
  }

  /** Decrypt undoes Encrypt: the only property of the block cipher the
      round trip needs. */
  ghost predicate Invertible(b: BlockCipher)
    requires WellFormed(b)
  {
    forall x: Block :: DecryptFn(b)(EncryptFn(b)(x)) == x
  }

  /** The errors New and NewAES return. polyval.New fails only for a key
      that is not 16 bytes long. */
  datatype Error = InvalidBlockSize(size: int) | KeySizeError(size: int) | HashKeyError

  datatype Created = Created(cipher: Cipher) | Failed(err: Error)

  /** Cipher: the block cipher, the running POLYVAL `h`, L = E(bin(1)), the
      tweak length the cached header states belong to, and those states
      (None for nil). The scratch blocks sum, s, uu, mm and ctr are locals
      here: every call overwrites them before reading them. */
  datatype Cipher = Cipher(
    block: BlockCipher,
    h: Polyval,
    l: Block,
    tweakLen: int,
    state0: Option<Block>,
    state1: Option<Block>)

  // Construction.

  /** New: refuses a block size other than 16; otherwise the hash key is
      E(0^128), the accumulator is zero, L = E(bin64(1) || 0^64) and
      nothing is cached yet. */
  function New(b: BlockCipher): (r: Created)
    requires WellFormed(b)
    ensures r.Failed? <==> BlockSizeOf(b) != BlockSize
    ensures r.Failed? ==> r.err == InvalidBlockSize(BlockSizeOf(b))
    ensures r.Created? ==> && r.cipher.block == b
                           && ToBytes(r.cipher.h.h) == EncryptFn(b)(Zeros(16))
                           && r.cipher.h.y == Zero
                           && r.cipher.l == EncryptFn(b)(CounterBlock(1))
                           && r.cipher.state0.None?
                           && Valid(r.cipher)
  {
    if BlockSizeOf(b) != BlockSize then Failed(InvalidBlockSize(BlockSizeOf(b)))
    else
      var key := EncryptFn(b)(Zeros(BlockSize));
      match NewHash(key)
      case None => Failed(HashKeyError)
      case Some(p) =>
        var one := PutLE64(1) + Zeros(BlockSize)[8..];
        CounterOne(one);
        Created(Cipher(b, p, EncryptFn(b)(one), 0, None, None))
  }

  /** NewAES: refuses keys that are not 16, 24 or 32 bytes long; any other
      key gives an HCTR2 cipher over the AES wrapper, which New accepts
      because its block size is 16. */
  function NewAES(prims: Aes.Primitives, key: seq<Byte>): (r: Created)
    ensures r.Failed? <==> !(|key| == 16 || |key| == 24 || |key| == 32)
    ensures r.Failed? ==> r.err == KeySizeError(|key|)
    ensures r.Created? ==> r.cipher.block == AesAsm(prims, Aes.NewCipher(prims, key))
  {
    if !(|key| == 16 || |key| == 24 || |key| == 32) then Failed(KeySizeError(|key|))
    else New(AesAsm(prims, Aes.NewCipher(prims, key)))
  }

  /** bin(1) as New writes it into the zeroed L is counter block 1. */
  lemma CounterOne(one: seq<Byte>)
    requires one == PutLE64(1) + Zeros(16)[8..]
    ensures one == CounterBlock(1)
  {
    UintOne();
    ZeroWord();
    assert Zeros(16)[8..] == Zeros(8);
  }

  lemma UintOne()
    ensures Uint64(1) == 1
  {
    assert 1 % 0x1_0000_0000_0000_0000 == 1;
    assert (1 as int) as bv64 == 1;
  }

  /** The zero word is eight zero bytes. */
  lemma ZeroWord()
    ensures PutLE64(0) == Zeros(8)
  {
  }

  // The hash input.

  /** 2^64: Go's uint64 arithmetic is modulo this. */
  const Two64: nat := 0x1_0000_0000_0000_0000

  /** uint64(len(tweak)*8*2 + 2): twice the tweak length in bits, plus 2,
      modulo 2^64. */
  function HeaderWord(tlen: nat): (l: nat)
    ensures l < Two64
  {
    (tlen * 8 * 2 + 2) % Two64
  }

  /** l + 1 on a uint64. */
  function Succ64(l: nat): (r: nat)
    ensures r < Two64
  {
    (l + 1) % Two64
  }

  /** The header block: the word little-endian in the first eight bytes of
      a zeroed block. `odd` (the message is not a whole number of blocks)
      selects l + 1. */
  function Header(tlen: nat, odd: bool): Block
  {
    var l := HeaderWord(tlen);
    PutLE64(Uint64(if odd then Succ64(l) else l)) + Zeros(8)
  }

  /** The header word is 16|T| + 2 for a whole number of message blocks
      and 16|T| + 3 otherwise, both modulo 2^64. */
  lemma HeaderValue(tlen: nat, odd: bool)
    ensures Header(tlen, odd) == PutLE64(Uint64(16 * tlen + (if odd then 3 else 2))) + Zeros(8)
  {
    var l := HeaderWord(tlen);
    var w := if odd then Succ64(l) else l;
    var v := 16 * tlen + (if odd then 3 else 2);
    HeaderWordValue(tlen, odd);
    SameWord(w, v);
  }

  /** The same, on the integer the word is made from. */
  lemma HeaderWordValue(tlen: nat, odd: bool)
    ensures (if odd then Succ64(HeaderWord(tlen)) else HeaderWord(tlen)) % Two64
         == (16 * tlen + (if odd then 3 else 2)) % Two64
  {
    var x := 16 * tlen + 2;
    if odd {
      SuccMod(x);
    }
  }

  /** Values equal modulo 2^64 are the same uint64. */
  lemma SameWord(a: nat, b: nat)
    requires a % Two64 == b % Two64
    ensures Uint64(a) == Uint64(b)
  {
  }

  /** Wrapping then adding one wraps like adding one. */
  lemma SuccMod(x: nat)
    ensures Succ64(x % Two64) % Two64 == (x + 1) % Two64
  {
    var q := x / Two64;
    assert x == q * Two64 + x % Two64;
    if x % Two64 == Two64 - 1 {
      assert x + 1 == (q + 1) * Two64;
    } else {
      assert x + 1 == q * Two64 + (x % Two64 + 1);
    }
  }

  /** pad(T): zeros up to a whole number of blocks, no marker. */
  function ZeroPad(t: seq<Byte>): (r: seq<Byte>)
    ensures |t| <= |r| < |t| + 16
    ensures |r| % 16 == 0 && r[..|t|] == t
    ensures forall k | |t| <= k < |r| :: r[k] == 0
  {
    t + Zeros((16 - |t| % 16) % 16)
  }

  /** pad(M || 1) when M is not a whole number of blocks, M itself when it
      is. */
  function PadMarker(m: seq<Byte>): (r: seq<Byte>)
    ensures |m| <= |r| < |m| + 16
    ensures |r| % 16 == 0 && r[..|m|] == m
    ensures |m| % 16 != 0 ==> r[|m|] == 1 && forall k | |m| < k < |r| :: r[k] == 0
    ensures |m| % 16 == 0 ==> r == m
  {
    if |m| % 16 == 0 then m else m + [1] + Zeros(15 - |m| % 16)
  }

  /** The accumulator after the header block alone. */
  function HeaderAcc(h: FieldElement, tlen: nat, odd: bool): FieldElement
  {
    Horner(h, Zero, [Header(tlen, odd)])
  }

  /** The cached state for a tweak length: the serialised header
      accumulator. */
  function HeaderState(h: FieldElement, tlen: nat, odd: bool): Block
  {
    ToBytes(HeaderAcc(h, tlen, odd))
  }

  /** The accumulator once the tweak is absorbed after the header. */
  function TweakHash(h: FieldElement, t: seq<Byte>, n: nat): FieldElement
  {
    Horner(h, HeaderAcc(h, |t|, n % 16 != 0), Chunks(ZeroPad(t)))
  }

  /** H_h(T, M) of HCTR2, continuing from the tweak state. */
  function Hash(h: FieldElement, t: seq<Byte>, m: seq<Byte>): Block
  {
    ToBytes(Horner(h, TweakHash(h, t, |m|), Chunks(PadMarker(m))))
  }

  /** The input of POLYVAL that H_h(T, M) hashes: bin(2|T| + 2) || pad(T)
      || M when 16 divides |M|, and bin(2|T| + 3) || pad(T) || pad(M || 1)
      otherwise. */
  function HashInput(t: seq<Byte>, m: seq<Byte>): (r: seq<Byte>)
    ensures |r| % 16 == 0
  {
    var a := ZeroPad(t);
    var b := PadMarker(m);
    Mod16Sum(|a|, |b|);
    Mod16Sum(16, |a| + |b|);
    Header(|t|, |m| % 16 != 0) + (a + b)
  }

  lemma Mod16Sum(a: nat, b: nat)
    requires a % 16 == 0 && b % 16 == 0
    ensures (a + b) % 16 == 0
  {
    assert a == 16 * (a / 16) && b == 16 * (b / 16);
    assert a + b == 16 * (a / 16 + b / 16);
  }

  /** The chained definition is POLYVAL of the whole input from zero. */
  lemma HashIsPolyval(h: FieldElement, t: seq<Byte>, m: seq<Byte>)
    ensures Hash(h, t, m) == ToBytes(Horner(h, Zero, Chunks(HashInput(t, m))))
  {
    var a := ZeroPad(t);
    var b := PadMarker(m);
    var hd := Header(|t|, |m| % 16 != 0);
    Mod16Sum(|a|, |b|);
    ChunksAppend(a, b);
    ChunksAppend(hd, a + b);
    assert Chunks(hd) == [hd] by {
      assert hd[..16] == hd && hd[16..] == [];
    }
    HornerAppend(h, Zero, [hd], Chunks(a) + Chunks(b));
    HornerAppend(h, HeaderAcc(h, |t|, |m| % 16 != 0), Chunks(a), Chunks(b));
  }

  // The hashing steps of Cipher.

  /** len &^ (BlockSize - 1) on a length: the largest multiple of 16 not
      above it. */
  function WholeBlocks(n: nat): (r: nat)
    ensures r <= n && r % 16 == 0 && n - r < 16
  {
    n - n % 16
  }

  /** polyhash: whole blocks go to Update as they are; a partial tail is
      copied into a zeroed block followed by the 0x01 marker. The digest is
      the accumulator, which stays in the hash. An empty input adds no
      block. */
  method Polyhash(p: Polyval, src: seq<Byte>) returns (q: Polyval, sum: Block)
    ensures q == Polyval(p.h, Horner(p.h, p.y, Chunks(PadMarker(src))))
    ensures sum == ToBytes(q.y)
    ensures |src| == 0 ==> q == p
  {
    q := p;
    var rest := src;
    ghost var done: seq<Byte> := [];
    if |rest| >= BlockSize {
      var n := WholeBlocks(|rest|);
      q := UpdateBlocks(q, rest[..n]);
      done := rest[..n];
      rest := rest[n..];
    }
    assert src == done + rest;
    if |rest| > 0 {
      var block := MarkedBlock(rest);
      q := UpdateBlocks(q, block);
      PolyhashJoin(p, src, done, rest, block);
    } else {
      PolyhashWhole(p, src, done);
    }
    sum := SumBytes(q);
  }

  /** The partial tail copied into a zeroed block, then the 0x01 marker
      written after it. */
  method MarkedBlock(rest: seq<Byte>) returns (block: seq<Byte>)
    requires 0 < |rest| < 16
    ensures block == rest + [1] + Zeros(15 - |rest|)
  {
    block := Zeros(BlockSize);
    var n := |rest|;
    block := rest + block[n..];
    block := block[n := 1];
  }

  /** The tail block joins the whole blocks. */
  lemma PolyhashJoin(p: Polyval, src: seq<Byte>, done: seq<Byte>, rest: seq<Byte>, block: seq<Byte>)
    requires src == done + rest && |done| % 16 == 0 && 0 < |rest| < 16
    requires block == rest + [1] + Zeros(15 - |rest|)
    ensures UpdateBlocks(UpdateBlocks(p, done), block) == Polyval(p.h, Horner(p.h, p.y, Chunks(PadMarker(src))))
  {
    assert |src| % 16 == |rest|;
    assert PadMarker(src) == done + block;
    UpdateBlocksAppend(p, done, block);
    UpdateBlocksIsHorner(p, done + block);
  }

  /** With no tail the whole blocks are everything. */
  lemma PolyhashWhole(p: Polyval, src: seq<Byte>, done: seq<Byte>)
    requires src == done && |done| % 16 == 0
    ensures UpdateBlocks(p, done) == Polyval(p.h, Horner(p.h, p.y, Chunks(PadMarker(src))))
  {
    UpdateBlocksIsHorner(p, done);
  }

  /** The tweak part of initTweak: whole blocks as they are, a partial
      tail copied into a zeroed block, with no marker. */
  method AbsorbTweak(p: Polyval, tweak: seq<Byte>) returns (q: Polyval)
    ensures q == Polyval(p.h, Horner(p.h, p.y, Chunks(ZeroPad(tweak))))
  {
    q := p;
    var rest := tweak;
    ghost var done: seq<Byte> := [];
    if |rest| >= BlockSize {
      var n := WholeBlocks(|rest|);
      q := UpdateBlocks(q, rest[..n]);
      done := rest[..n];
      rest := rest[n..];
    }
    assert tweak == done + rest;
    if |rest| > 0 {
      var block := PaddedBlock(rest);
      q := UpdateBlocks(q, block);
      TweakJoin(p, tweak, done, rest, block);
    } else {
      TweakWhole(p, tweak, done);
    }
  }

  /** The partial tail copied into a zeroed block. */
  method PaddedBlock(rest: seq<Byte>) returns (block: seq<Byte>)
    requires 0 < |rest| < 16
    ensures block == rest + Zeros(16 - |rest|)
  {
    block := Zeros(BlockSize);
    block := rest + block[|rest|..];
  }

  lemma TweakJoin(p: Polyval, t: seq<Byte>, done: seq<Byte>, rest: seq<Byte>, block: seq<Byte>)
    requires t == done + rest && |done| % 16 == 0 && 0 < |rest| < 16
    requires block == rest + Zeros(16 - |rest|)
    ensures UpdateBlocks(UpdateBlocks(p, done), block) == Polyval(p.h, Horner(p.h, p.y, Chunks(ZeroPad(t))))
  {
    assert |t| % 16 == |rest|;
    assert ZeroPad(t) == done + block;
    UpdateBlocksAppend(p, done, block);
    UpdateBlocksIsHorner(p, done + block);
  }

  lemma TweakWhole(p: Polyval, t: seq<Byte>, done: seq<Byte>)
    requires t == done && |done| % 16 == 0
    ensures UpdateBlocks(p, done) == Polyval(p.h, Horner(p.h, p.y, Chunks(ZeroPad(t))))
  {
    assert ZeroPad(t) == t;
    UpdateBlocksIsHorner(p, done);
  }

  // The tweak cache.

  /** The cache invariant: both states are present or both absent, and
      when present they are the header states for `tweakLen`. */
  predicate Valid(c: Cipher)
  {
    && WellFormed(c.block)
    && c.tweakLen >= 0
    && (c.state0.Some? <==> c.state1.Some?)
    && (c.state0.Some? ==> && c.state0.value == HeaderState(c.h.h, c.tweakLen, false)
                           && c.state1.value == HeaderState(c.h.h, c.tweakLen, true))
  }

  /** The cache rebuild of initTweak, with the accumulator reset before
      the first header is absorbed: each state is POLYVAL of its header
      alone, and the hash is left reset. */
  method RebuildCache(c: Cipher, tlen: nat) returns (r: Cipher)
    ensures r == c.(h := Reset(c.h), tweakLen := tlen,
                    state0 := Some(HeaderState(c.h.h, tlen, false)),
                    state1 := Some(HeaderState(c.h.h, tlen, true)))
  {
    var l := HeaderWord(tlen);
    var block := Zeros(BlockSize);
    block := PutLE64(Uint64(l)) + block[8..];
    var h := Reset(c.h);
    HeaderStep(c.h.h, tlen, false, block);
    h := UpdateBlocks(h, block);
    var s0 := Marshal(h);
    h := Reset(h);
    block := PutLE64(Uint64(Succ64(l))) + block[8..];
    HeaderStep(c.h.h, tlen, true, block);
    h := UpdateBlocks(h, block);
    var s1 := Marshal(h);
    h := Reset(h);
    r := c.(h := h, state0 := Some(s0), state1 := Some(s1), tweakLen := tlen);
  }

  /** Absorbing a header block into a reset hash gives its header state. */
  lemma HeaderStep(h: FieldElement, tlen: nat, odd: bool, block: seq<Byte>)
    requires |block| == 16
    requires block == PutLE64(Uint64(if odd then Succ64(HeaderWord(tlen)) else HeaderWord(tlen))) + block[8..]
    requires block[8..] == Zeros(16)[8..]
    ensures block == Header(tlen, odd)
    ensures Marshal(UpdateBlocks(Polyval(h, Zero), block)) == HeaderState(h, tlen, odd)
  {
    assert Zeros(16)[8..] == Zeros(8);
    UpdateBlocksIsHorner(Polyval(h, Zero), block);
    assert Chunks(block) == [block] by {
      assert block[..16] == block && block[16..] == [];
    }
  }

  /** initTweak: rebuilds the cache on the first call or when the tweak
      length changes, restores the state for the message length, then
      absorbs pad(T). Afterwards the accumulator is POLYVAL of the header
      and pad(T), and the cache holds for the new tweak length. */
  method InitTweak(c: Cipher, tweak: seq<Byte>, n: nat) returns (r: Cipher)
    requires Valid(c)
    ensures Valid(r) && r.tweakLen == |tweak|
    ensures r.block == c.block && r.l == c.l && r.h.h == c.h.h
    ensures r.h.y == TweakHash(c.h.h, tweak, n)
    ensures c.state0.Some? && c.tweakLen == |tweak| ==> r.state0 == c.state0 && r.state1 == c.state1
  {
    r := c;
    if r.state0.None? || r.tweakLen != |tweak| {
      r := RebuildCache(r, |tweak|);
    }
    var st := if n % BlockSize == 0 then r.state0.value else r.state1.value;
    var p := Unmarshal(r.h, st);
    RestoredHeader(c.h.h, |tweak|, n % 16 != 0, r.h, st);
    p := AbsorbTweak(p, tweak);
    r := r.(h := p);
  }

  /** Restoring a header state sets the accumulator to it. */
  lemma RestoredHeader(h: FieldElement, tlen: nat, odd: bool, p: Polyval, st: Block)
    requires p.h == h && st == HeaderState(h, tlen, odd)
    ensures Unmarshal(p, st) == Polyval(h, HeaderAcc(h, tlen, odd))
  {
    SetBytesToBytes(HeaderAcc(h, tlen, odd));
  }

  // The cipher.

  /** Cipher.xctr: the block cipher's own XCTR when it has one (aesCipher),
      the generic loop otherwise. Either writes XCTR output over the first
      min(|dst|, |src|) bytes of dst; only the AES bulk routine can panic,
      when dst is shorter than the whole blocks of src. */
  method XctrOf(b: BlockCipher, dst: seq<Byte>, src: seq<Byte>, nonce: Block)
    returns (r: Result<seq<Byte>>)
    requires WellFormed(b)
    ensures r.Panic? <==> b.AesAsm? && |dst| < 16 * (|src| / 16)
    ensures r.Ok? ==> r.value == Write(EncryptFn(b), nonce, dst, src)
  {
    if b.AesAsm? {
      r := Aes.XctrBulk(b.prims, b.aes, dst, src, nonce);
    } else {
      var out := Xctr.Generic(b.encrypt, dst, src, nonce);
      r := Ok(out);
    }
  }

  /** H_h(T, .) with the tweak fixed. */
  function HashFn(h: FieldElement, t: seq<Byte>): seq<Byte> -> Block
  {
    m => Hash(h, t, m)
  }

  /** The middle block-cipher call: Encrypt when sealing, Decrypt when
      opening. */
  function Direction(b: BlockCipher, seal: bool): Block -> Block
    requires WellFormed(b)
  {
    if seal then EncryptFn(b) else DecryptFn(b)
  }

  /** The HCTR2 pass the cipher performs. */
  function Pass(c: Cipher, t: seq<Byte>, seal: bool, src: seq<Byte>): (r: seq<Byte>)
    requires WellFormed(c.block) && |src| >= 16
    ensures |r| == |src|
  {
    Transform(EncryptFn(c.block), Direction(c.block, seal), HashFn(c.h.h, t), c.l, src)
  }

  /** Cipher.hctr2 with V = dst[BlockSize:len(src)]: the first |src| bytes
      of dst become the HCTR2 pass over src and the rest of dst keeps its
      value. The cipher keeps its block cipher, key and L, and its cache
      holds for the new tweak length. */
  method Hctr2(c: Cipher, dst: seq<Byte>, src: seq<Byte>, tweak: seq<Byte>, seal: bool)
    returns (c': Cipher, out: seq<Byte>)
    requires Valid(c)
    requires |src| >= BlockSize && |dst| >= |src|
    ensures out == Pass(c, tweak, seal, src) + dst[|src|..]
    ensures Valid(c') && c'.tweakLen == |tweak|
    ensures c'.block == c.block && c'.l == c.l && c'.h.h == c.h.h
  {
    var M, N := src[..BlockSize], src[BlockSize..];
    var state, mm;
    c', state, mm := MaskFirst(c, tweak, M, N);
    var uu := MiddleCall(c.block, seal, mm);
    var s := XorBlock3(mm, uu, c.l);
    var V := XctrTail(c.block, dst[BlockSize..|src|], N, s);
    var u;
    c', u := MaskLast(c', state, tweak, |N|, uu, V);
    out := u + V + dst[|src|..];
    PassIs(c, tweak, seal, src, mm, uu, V, u);
  }

  /** The tweak and N hashed from the cached header state: MM = M xor
      H_h(T, N). `state` is the accumulator after the tweak, saved for
      the second hash. */
  method MaskFirst(c: Cipher, tweak: seq<Byte>, M: Block, N: seq<Byte>)
    returns (c': Cipher, state: Block, mm: Block)
    requires Valid(c)
    ensures Valid(c') && c'.tweakLen == |tweak|
    ensures c'.block == c.block && c'.l == c.l && c'.h.h == c.h.h
    ensures state == ToBytes(TweakHash(c.h.h, tweak, |N|))
    ensures mm == XorBytes(M, HashFn(c.h.h, tweak)(N))
  {
    c' := InitTweak(c, tweak, |N|);
    state := Marshal(c'.h);
    var h, sum := Polyhash(c'.h, N);
    mm := XorBlock(M, sum);
    c' := c'.(h := h);
  }

  /** c.block.Encrypt(c.uu[:], c.mm[:]) when sealing, c.block.Decrypt
      otherwise. For aesCipher this goes through its argument checks,
      which the two distinct scratch blocks always pass, so UU is E(MM)
      when sealing and D(MM) when opening. */
  method MiddleCall(b: BlockCipher, seal: bool, mm: Block) returns (uu: Block)
    requires WellFormed(b)
    ensures seal ==> uu == EncryptFn(b)(mm)
    ensures !seal ==> uu == DecryptFn(b)(mm)
  {
    if b.Generic? {
      uu := if seal then b.encrypt(mm) else b.decrypt(mm);
    } else {
      // c.uu and c.mm are different arrays of the Cipher struct.
      var dst, src := Slice(1, 0, ZeroBlock), Slice(0, 0, mm);
      OverlapCases(dst.Prefix(BlockSize), src.Prefix(BlockSize));
      var r := if seal then Aes.Encrypt(b.prims, b.aes, dst, src)
               else Aes.Decrypt(b.prims, b.aes, dst, src);
      assert r.Ok?;
      assert src.data[..BlockSize] == mm;
      uu := r.value[..BlockSize];
    }
  }

  /** V = N xor XCTR(S)[0; |N|], written over a buffer of the same
      length. */
  method XctrTail(b: BlockCipher, v: seq<Byte>, n: seq<Byte>, s: Block) returns (V: seq<Byte>)
    requires WellFormed(b) && |v| == |n|
    ensures V == Apply(EncryptFn(b), s, n)
  {
    var x := XctrOf(b, v, n, s);
    V := x.value;
    assert n[..Min(|v|, |n|)] == n && v[|n|..] == [];
  }

  /** U = UU xor H_h(T, V), hashed from the saved tweak state. */
  method MaskLast(c: Cipher, state: Block, tweak: seq<Byte>, n: nat, uu: Block, V: seq<Byte>)
    returns (c': Cipher, u: Block)
    requires Valid(c) && |V| == n
    requires state == ToBytes(TweakHash(c.h.h, tweak, n))
    ensures u == XorBytes(uu, HashFn(c.h.h, tweak)(V))
    ensures c' == c.(h := c'.h) && c'.h.h == c.h.h
  {
    var h := Unmarshal(c.h, state);
    SetBytesToBytes(TweakHash(c.h.h, tweak, n));
    var sum;
    h, sum := Polyhash(h, V);
    u := XorBlock(uu, sum);
    c' := c.(h := h);
  }

  /** The blocks hctr2 computes assemble into the pass. */
  lemma PassIs(c: Cipher, t: seq<Byte>, seal: bool, src: seq<Byte>,
               mm: Block, uu: Block, v: seq<Byte>, u: Block)
    requires WellFormed(c.block) && |src| >= 16
    requires mm == XorBytes(src[..16], HashFn(c.h.h, t)(src[16..]))
    requires uu == Direction(c.block, seal)(mm)
    requires v == Apply(EncryptFn(c.block), XorBytes(XorBytes(mm, uu), c.l), src[16..])
    requires u == XorBytes(uu, HashFn(c.h.h, t)(v))
    ensures Pass(c, t, seal, src) == u + v
  {
  }

  /** The three argument checks of Encrypt (sealing: dst is the
      ciphertext) and Decrypt, in order; None when all pass. */
  function Guard(dst: Slice, src: Slice, seal: bool): (r: Option<string>)
    ensures r.None? <==> dst.Len() >= src.Len() >= BlockSize
                         && !InexactOverlap(dst.Prefix(src.Len()), src)
  {
    if dst.Len() < src.Len() then
      Some(if seal then "hctr2: ciphertext is smaller than plaintext"
           else "hctr2: plaintext is smaller than ciphertext")
    else if src.Len() < BlockSize then
      Some(if seal then "hctr2: plaintext is smaller than the block size"
           else "hctr2: ciphertext is smaller than the block size")
    else if InexactOverlap(dst.Prefix(src.Len()), src) then Some("hctr2: invalid buffer overlap")
    else None
  }

  /** Cipher.Encrypt: panics, leaving the cipher as it was, when the
      ciphertext buffer is shorter than the plaintext, the plaintext is
      shorter than a block, or the buffers overlap inexactly; otherwise
      the first len(plaintext) bytes of the ciphertext buffer become the
      HCTR2 encryption and the rest is untouched. */
  method Encrypt(c: Cipher, ciphertext: Slice, plaintext: Slice, tweak: seq<Byte>)
    returns (c': Cipher, r: Result<seq<Byte>>)
    requires Valid(c)
    ensures ciphertext.Len() < plaintext.Len() ==> r == Panic("hctr2: ciphertext is smaller than plaintext")
    ensures ciphertext.Len() >= plaintext.Len() && plaintext.Len() < BlockSize
            ==> r == Panic("hctr2: plaintext is smaller than the block size")
    ensures r.Ok? <==> Guard(ciphertext, plaintext, true).None?
    ensures r.Panic? ==> c' == c
    ensures r.Ok? ==> && r.value == Pass(c, tweak, true, plaintext.data) + ciphertext.data[plaintext.Len()..]
                      && Valid(c') && c'.block == c.block && c'.h.h == c.h.h && c'.l == c.l
  {
    c' := c;
    match Guard(ciphertext, plaintext, true)
    case Some(msg) =>
      r := Panic(msg);
    case None =>
      var out;
      c', out := Hctr2(c, ciphertext.data, plaintext.data, tweak, true);
      r := Ok(out);
  }

  /** Cipher.Decrypt: the same checks with the roles of the buffers
      swapped, then the pass with the block cipher's Decrypt. */
  method Decrypt(c: Cipher, plaintext: Slice, ciphertext: Slice, tweak: seq<Byte>)
    returns (c': Cipher, r: Result<seq<Byte>>)
    requires Valid(c)
    ensures plaintext.Len() < ciphertext.Len() ==> r == Panic("hctr2: plaintext is smaller than ciphertext")
    ensures plaintext.Len() >= ciphertext.Len() && ciphertext.Len() < BlockSize
            ==> r == Panic("hctr2: ciphertext is smaller than the block size")
    ensures r.Ok? <==> Guard(plaintext, ciphertext, false).None?
    ensures r.Panic? ==> c' == c
    ensures r.Ok? ==> && r.value == Pass(c, tweak, false, ciphertext.data) + plaintext.data[ciphertext.Len()..]
                      && Valid(c') && c'.block == c.block && c'.h.h == c.h.h && c'.l == c.l
  {
    c' := c;
    match Guard(plaintext, ciphertext, false)
    case Some(msg) =>
      r := Panic(msg);
    case None =>
      var out;
      c', out := Hctr2(c, plaintext.data, ciphertext.data, tweak, false);
      r := Ok(out);
  }

  /** Decrypt undoes Encrypt: for an invertible block cipher, decrypting
      the len(plaintext) bytes Encrypt produced, with the same tweak and
      the cipher state Encrypt left behind, gives the plaintext back. The
      cache carried between the calls does not change the result. */
  lemma EncryptDecrypt(c: Cipher, c2: Cipher, t: seq<Byte>, p: seq<Byte>)
    requires Valid(c) && Invertible(c.block) && |p| >= 16
    requires c2.block == c.block && c2.h.h == c.h.h && c2.l == c.l
    ensures Pass(c2, t, false, Pass(c, t, true, p)) == p
  {
    RoundTrip(EncryptFn(c.block), EncryptFn(c.block), DecryptFn(c.block), HashFn(c.h.h, t), c.l, p);
  }
}
