/** The HCTR2 construction over an abstract block cipher and hash, as the
    comments of Cipher.hctr2 spell it out:

      M || N <- P, |M| = 16
      MM <- M xor H(N)         UU <- E(MM) (D(MM) when decrypting)
      S  <- MM xor UU xor L    V  <- N xor XCTR(S)[0; |N|]
      U  <- UU xor H(V)        result U || V

    `H` stands for H_h(T, .) with the tweak fixed. Encryption and
    decryption differ only in the direction of the middle block-cipher
    call, which is what makes one undo the other. */
module HctrMode {
  import opened Bytes
  import opened Xctr

  /** One HCTR2 pass: `E` drives XCTR, `dir` is the middle call (E to
      encrypt, D to decrypt), `hash` is H_h(T, .), `L` is E(bin(1)). */
  function Transform(E: Block -> Block, dir: Block -> Block, hash: seq<Byte> -> Block,
                     L: Block, src: seq<Byte>): (r: seq<Byte>)
    requires |src| >= 16
    ensures |r| == |src|
  {
    var MM := XorBytes(src[..16], hash(src[16..]));
    var UU := dir(MM);
    var V := Apply(E, Middle(MM, UU, L), src[16..]);
    XorBytes(UU, hash(V)) + V
  }

  /** S = MM xor UU xor L, the XCTR nonce. */
  function Middle(MM: Block, UU: Block, L: Block): Block
  {
    XorBytes(XorBytes(MM, UU), L)
  }

  /** The nonce is the same whichever of MM and UU comes first. */
  lemma MiddleSymmetric(MM: Block, UU: Block, L: Block)
    ensures Middle(MM, UU, L) == Middle(UU, MM, L)
  {
    XorBytesComm(MM, UU);
  }

  /** Decryption inverts encryption (and, with the roles of E and D
      swapped, the other way round): when `inv` undoes `fwd` on every
      block, the pass with `inv` undoes the pass with `fwd`, for every
      key stream, hash, L and input of at least one block. */
  lemma RoundTrip(E: Block -> Block, fwd: Block -> Block, inv: Block -> Block,
                  hash: seq<Byte> -> Block, L: Block, p: seq<Byte>)
    requires |p| >= 16
    requires forall x: Block :: inv(fwd(x)) == x
    ensures Transform(E, inv, hash, L, Transform(E, fwd, hash, L, p)) == p
  {
    var M, N := p[..16], p[16..];
    var MM := XorBytes(M, hash(N));
    var UU := fwd(MM);
    var S := Middle(MM, UU, L);
    var V := Apply(E, S, N);
    var U := XorBytes(UU, hash(V));
    var c := Transform(E, fwd, hash, L, p);
    assert c == U + V;
    assert c[..16] == U && c[16..] == V;
    // Decrypting: the first block unmasks to UU, which inverts to MM.
    var MM' := XorBytes(U, hash(V));
    XorBytesCancel(UU, hash(V));
    assert MM' == UU;
    var UU' := inv(MM');
    assert UU' == MM;
    // The nonce is the same, so XCTR undoes itself.
    MiddleSymmetric(MM, UU, L);
    var V' := Apply(E, Middle(MM', UU', L), V);
    ApplyInvolution(Keystream(E, S), 1, N);
    assert V' == N;
    // And the first block unmasks to M.
    XorBytesCancel(M, hash(N));
    assert Transform(E, inv, hash, L, c) == XorBytes(UU', hash(V')) + V';
    assert p == M + N;
  }
}
