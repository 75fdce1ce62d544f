# HCTR2 in Dafny

A model of the Go package `hctr2`, an implementation of HCTR2: a
length-preserving, tweakable wide-block cipher built from AES. HCTR2 sees a
message of at least 16 bytes as a first block M and a tail N. It hides M
under the POLYVAL hash of the tweak and N. It encrypts the masked block
once with the block cipher. From that it derives an XCTR nonce and encrypts
N under it. Finally it masks the block cipher's output with the hash of the
tweak and the encrypted tail. Decryption runs the same pass with the block
cipher's decryption in the middle.

The model follows the package's files:

- `results.dfy`, `bytes.dfy`: results and panics, bytes, little-endian
  words, and the three xor helpers of `hctr2.go` (`xorBlock`, `xorBlock3`,
  `xor`). Also Go slices as (backing array, start, contents), with
  `subtle.InexactOverlap`.
- `clmul.dfy`, `field.dfy`, `polyval.dfy`: POLYVAL's field arithmetic.
  - `CarryLess.CtMul` is the 64x64 carry-less multiply that the generated
    `ctmul` computes.
  - `Field` covers `fieldElement` with `setBytes`, `bytes`, `xor`,
    Karatsuba `mul` with Montgomery reduction, and `double`.
  - `Polyval` covers the incremental hash: `init`, `update`, `sum`,
    `Reset` and the marshalled state. Its reference definition is Horner
    evaluation.
- `xctr.dfy`: XCTR's keystream, and the reference transform `Xctr.Apply`
  every XCTR implementation is proved to compute. `Xctr.Generic` is the
  loop of `Cipher.xctr` for block ciphers without their own XCTR.
- `rounds.dfy`, `xctr_asm.dfy`: the code generator in `asm/asm.go`.
  - `rk` and `state.encrypt` become the list of AES round steps they emit,
    with their round-key offsets.
  - `declareXctrAsm` becomes its two loops, a single-block loop and a loop
    of four blocks at a time.
- `aes.dfy`: `aes_asm.go`, which covers the key-schedule sizes of
  `newCipher`, the checks in `Encrypt` and `Decrypt`, and both branches of
  `aesCipher.xctr`.
- `hctr_mode.dfy`: the HCTR2 pass over an abstract block cipher, hash and
  L, with the proof that decryption undoes encryption.
- `hctr2.dfy`: the `Cipher` of `hctr2.go`.
  - `New` and `NewAES`.
  - The tweak-header cache of `initTweak` and the padding rules of
    `polyhash`.
  - `hctr2` itself, and `Encrypt` and `Decrypt` with their panics.
- `findings.dfy`: two places where the code as written differs from what
  HCTR2 computes (see Findings). Both are modelled as written and also
  corrected.

Block ciphers, the AES instructions and the foreign routines
`expandKeyAsm` and `decryptBlockAsm` are function values passed in. Panics
are values of the `Result` type. The cipher's mutable scratch state is
threaded through the methods as a `Cipher` value.

## Model

| member | source | states |
|---|---|---|
| Bytes.XorBlock | hctr2.go:299-306 | going through two little-endian 64-bit words gives the byte-wise xor of the two blocks |
| Bytes.XorBlock3 | hctr2.go:309-320 | the word-wise three-way xor, high half first, equals (v xor x) xor y byte by byte |
| Bytes.XorN | hctr2.go:323-328 | xor writes x[i] xor y[i] at every index below n and below all three lengths, and leaves the rest of z alone |
| Bytes.GetPutLE64 | hctr2.go:271 | a 64-bit word written little-endian reads back as the same word |
| Bytes.PutGetLE64 | hctr2.go:300-305 | eight bytes read as a little-endian word and written back are unchanged |
| Bytes.XorBytesCancel | hctr2.go:185 | xor-ing the same block twice restores the original, which is what lets HCTR2 be inverted |
| Bytes.XorBytesComm | hctr2.go:185 | byte-wise xor is commutative |
| Bytes.XorBytesAssoc | hctr2.go:309-320 | byte-wise xor is associative, so the grouping xorBlock3 uses does not matter |
| Bytes.ChunksAppend | polyval.go:34-40 | the 16-byte blocks of a concatenation of whole blocks are the blocks of each part |
| Bytes.ChunksAt | polyval.go:34-40 | block i of whole-block data is bytes 16i up to 16i+16 |
| Bytes.OverlapCases | hctr2.go:134 | exact aliasing and different backing arrays never count as an inexact overlap; a buffer starting inside the other one does |
| CarryLess.Comm | polyval.go:97-99 | the carry-less product of two 64-bit words does not depend on operand order |
| CarryLess.Bilinear | polyval.go:97-104 | the carry-less product distributes over xor in both operands, the identity Karatsuba relies on |
| CarryLess.ZeroLeft | polyval.go:97-99 | multiplying by the zero polynomial gives zero |
| CarryLess.OneLeft | polyval.go:97-99 | multiplying by the polynomial 1 gives the other operand |
| CarryLess.ShlLeft | polyval.go:97-99 | multiplying by 2a is the product with a shifted left one bit |
| Field.SetBytesToBytes | polyval.go:56-66 | setBytes after bytes returns the same field element |
| Field.ToBytesSetBytes | polyval.go:56-66 | bytes after setBytes returns the same 16 bytes |
| Field.ToBytesInjective | polyval.go:61-66 | different field elements have different byte encodings |
| Field.SetBytesXor | polyval.go:68-70 | decoding the xor of two blocks equals the field xor of their decodings |
| Field.XorComm | polyval.go:68-70 | field addition is commutative |
| Field.XorAssoc | polyval.go:68-70 | field addition is associative |
| Field.XorZero | polyval.go:68-70 | zero is the identity of field addition |
| Field.XorSelf | polyval.go:68-70 | every element is its own additive inverse |
| Field.KaratsubaIsSchoolbook | polyval.go:97-104 | the three-multiply Karatsuba limbs equal the schoolbook 256-bit carry-less product of the two 128-bit operands |
| Field.ReduceHighHalf | polyval.go:106-125 | the two folding steps of the reduction leave exactly the high half when the low limbs are zero |
| Field.MulZero | polyval.go:74-126 | mul by zero gives zero |
| Field.ZeroMul | polyval.go:74-126 | zero times anything is zero |
| Field.MulComm | polyval.go:74-126 | mul is commutative |
| Field.DoubleNoCarry | polyval.go:129-144 | with the top coefficient clear, double is the plain one-bit shift of the polynomial |
| Field.DoubleCarry | polyval.go:129-144 | with the top coefficient set, double folds x^128 back as x^127 + x^126 + x^121 + 1 |
| Polyval.Init | polyval.go:27-29 | init sets the key from the first 16 bytes and keeps the accumulator |
| Polyval.Update | polyval.go:34-40 | absorbing a block never changes the key |
| Polyval.HornerAppend | polyval.go:34-40 | hashing two block lists one after the other equals hashing their concatenation |
| Polyval.NewHash | hctr2.go:43-46 | creating the hash fails exactly when the key is not 16 bytes; otherwise it starts from zero with that key |
| Polyval.UpdateBlocksIsHorner | polyval.go:34-40 | feeding whole-block data block by block is Horner evaluation y = (y + b) * h over its blocks |
| Polyval.UpdateBlocksAppend | polyval.go:34-40 | two updates in a row equal one update over the concatenated data |
| Polyval.Reset | hctr2.go:214 | Reset keeps the key and clears the accumulator |
| Polyval.MarshalRoundTrip | hctr2.go:172 | restoring the marshalled state into a hash with the same key gives back exactly the saved hash |
| Polyval.MarshalInjective | hctr2.go:191 | two marshalled states are equal exactly when the accumulators are equal |
| Xctr.CounterBlockWords | hctr2.go:271-272 | read back little-endian, the counter block's low word is the counter modulo 2^64 and its high eight bytes are zero |
| Xctr.ApplyAt | hctr2.go:269-291 | output byte j is byte j mod 16 of keystream block i + j/16 xor input byte j |
| Xctr.ApplyAppend | hctr2.go:269-291 | after whole blocks the transform continues with the next counter |
| Xctr.ApplyInvolution | hctr2.go:187-189 | XCTR with the same keystream is its own inverse |
| Xctr.WriteEmpty | hctr2.go:283 | an empty source leaves dst unchanged |
| Xctr.Generic | hctr2.go:263-292 | the generic xctr loop writes the XCTR transform of the first min(len(dst), len(src)) bytes, counters from 1, and leaves the rest of dst |
| Xctr.GenericBlocks | hctr2.go:269-281 | the whole-block loop stops at the first counter where either buffer has less than a block left, with every earlier block transformed |
| Xctr.TailCounter | hctr2.go:284-289 | the partial tail's key block, built with xor over the counter block, is the next keystream block |
| Rounds.RoundsOf | asm/asm.go:76-78 | the comparison with 12 always lands on a 10-, 12- or 14-round path, and on exactly the requested one for each AES round count |
| Rounds.EncryptSchedule | asm/asm.go:61-112 | the emitted code is one key addition, nr-1 full rounds and a last round |
| Rounds.ReferenceOffsets | asm/asm.go:49-59 | step k reads the round key at byte offset 16k, offsets strictly increase, and the first and last steps are the key addition and the last round |
| Rounds.ReferenceRounds | asm/asm.go:80-111 | the schedule has exactly nr round steps |
| Rounds.ReferenceInBounds | asm/asm.go:49-59 | a schedule of nr+1 round keys covers every key the steps read |
| Rounds.RunManyAt | asm/asm.go:61-72 | encrypting several blocks step by step in lockstep gives each block its own encryption |
| XctrAsm.XctrAsm | asm/asm.go:114-237 | the emitted routine writes the XCTR transform of nblocks whole blocks with counters 1..nblocks, visiting each counter once in order, and leaves the rest of dst |
| XctrAsm.SingleLoop | asm/asm.go:162-190 | the single-block loop handles exactly nblocks mod 4 blocks, in counter order |
| XctrAsm.SingleStep | asm/asm.go:172-189 | one pass of the single-block loop encrypts the next counter and stores one more block, in counter order |
| XctrAsm.WideLoop | asm/asm.go:192-233 | the wide loop finishes the remaining groups of four, reaching offset 16*nblocks |
| XctrAsm.WideGroup | asm/asm.go:195-232 | one group handles four consecutive counters at consecutive offsets |
| XctrAsm.EncryptCounters | asm/asm.go:205-215 | the encrypted counter blocks are consecutive keystream blocks |
| XctrAsm.KeystreamLink | asm/asm.go:168-178 | a counter in the low 64 bits with a zero high half, xor-ed with the nonce and run through the schedule, is the XCTR keystream block |
| XctrAsm.StoreBlock | asm/asm.go:180-186 | storing key block xor source block advances the loop invariant by one counter |
| Aes.NewCipher | aes_asm.go:42-58 | the schedules have key length + 28 words, the round count is 10, 12 or 14 for 16-, 24- or 32-byte keys, and it is the count the later calls derive |
| Aes.BlockGuard | aes_asm.go:62-73 | the block operations accept exactly when both buffers hold a block and their first blocks do not overlap inexactly |
| Aes.Encrypt | aes_asm.go:62-73 | panics with the source's messages for short input or output; otherwise dst's first block becomes the encryption of src's first block and the rest of dst is unchanged |
| Aes.Decrypt | aes_asm.go:75-86 | the same checks and messages as Encrypt; otherwise dst's first block becomes the decryption routine's output on src's first block and the rest of dst is unchanged |
| Aes.InPlace | aes_asm.go:66-71 | encrypting or decrypting a block in place is accepted |
| Aes.BlockRoundTrip | aes_asm.go:62-86 | when the decryption routine inverts the encryption routine, decrypting the block Encrypt wrote restores the source block |
| Aes.XctrBulk | aes_asm.go:88-121 | the compiled-in branch panics exactly when dst cannot hold the whole blocks of src, and otherwise writes the XCTR transform |
| Aes.XctrPerBlock | aes_asm.go:96-121 | the per-block branch never panics and writes the same XCTR transform |
| Aes.Tail | aes_asm.go:112-120 | after n whole blocks, the partial rest uses counter n+1 and completes the transform |
| Aes.KeyBlock | aes_asm.go:113-118 | the tail's counter block, xor-ed with the nonce and encrypted, is keystream block n+1 |
| HctrMode.Transform | hctr2.go:160-195 | the pass is length-preserving |
| HctrMode.MiddleSymmetric | hctr2.go:185 | the XCTR nonce MM xor UU xor L does not depend on which of MM and UU is the input |
| HctrMode.RoundTrip | hctr2.go:160-195 | for any hash, L and keystream, the pass with the inverse block cipher undoes the pass with the forward one |
| Hctr2.New | hctr2.go:34-57 | fails exactly for block sizes other than 16; h is the encryption of the zero block, L that of counter block 1, the hash starts at zero and the cache is empty |
| Hctr2.NewAES | hctr2.go:66-74 | rejects exactly the key lengths other than 16, 24 and 32 with a key-size error, and otherwise uses the AES cipher of that key |
| Hctr2.CounterOne | hctr2.go:52-54 | the block L is built from is counter block 1 |
| Hctr2.HeaderValue | hctr2.go:208-219 | the cached header block is the little-endian uint64 of 16*len(tweak) + 2, or + 3 for a message that is not whole blocks, then eight zero bytes |
| Hctr2.ZeroPad | hctr2.go:230-239 | the tweak padding keeps the tweak and appends fewer than 16 bytes, all zero, to reach a whole number of blocks |
| Hctr2.PadMarker | hctr2.go:246-257 | a message that is not whole blocks gets a 1 byte and then zeros up to the next block boundary, fewer than 16 bytes in all; whole blocks are hashed unpadded |
| Hctr2.HashIsPolyval | hctr2.go:198-207 | the tweak hash continued over the message is POLYVAL of header, padded tweak and padded message |
| Hctr2.WholeBlocks | hctr2.go:248 | rounding the length down to a multiple of 16 loses less than a block |
| Hctr2.Polyhash | hctr2.go:246-260 | polyhash absorbs the padded message into the hash and returns its sum; an empty message leaves the hash untouched |
| Hctr2.MarkedBlock | hctr2.go:253-255 | the last partial block is the rest, a 1 byte and zeros to 16 bytes |
| Hctr2.AbsorbTweak | hctr2.go:230-239 | the tweak is absorbed zero-padded to whole blocks |
| Hctr2.PaddedBlock | hctr2.go:236-237 | the last partial tweak block is the rest and zeros to 16 bytes |
| Hctr2.RebuildCache | hctr2.go:200-222 | corrected, see Findings: the hash is reset before the first header too; the rebuilt cache holds the hash of the one header block for each parity and records the tweak length |
| Hctr2.HeaderStep | hctr2.go:208-218 | the block written with the header word is the header, and the marshalled hash of it is the cached state |
| Hctr2.InitTweak | hctr2.go:197-240 | afterwards the hash state is the header and padded tweak hashed for this length and parity, the cache is valid for the tweak length, and a cache hit keeps both cached states |
| Hctr2.RestoredHeader | hctr2.go:224-228 | restoring a cached state gives the hash with the header absorbed |
| Hctr2.XctrOf | hctr2.go:263-267 | dispatch panics only on the AES path when dst is shorter than src's whole blocks, and otherwise writes the XCTR transform |
| Hctr2.Hctr2 | hctr2.go:160-195 | corrected, see Findings: the second hash covers V = dst[16:len(src)] only; dst receives the HCTR2 pass of src, its spare bytes are kept, and the cipher stays valid with the same keys |
| Hctr2.MaskFirst | hctr2.go:165-175 | the saved state is the tweak hash and MM is M masked with the hash of N |
| Hctr2.MiddleCall | hctr2.go:177-182 | through the block cipher's Encrypt or Decrypt (for AES, past its argument checks, which the distinct scratch blocks always pass), UU is E(MM) when sealing and D(MM) when opening |
| Hctr2.XctrTail | hctr2.go:187-189 | V is N under XCTR with nonce S |
| Hctr2.MaskLast | hctr2.go:191-194 | after restoring the saved state, U is UU masked with the hash of V, and only the hash changes |
| Hctr2.Guard | hctr2.go:127-158 | Encrypt and Decrypt accept exactly when the output is at least as long as the input, the input holds a block, and the buffers do not overlap inexactly |
| Hctr2.Encrypt | hctr2.go:127-138 | runs on the corrected Hctr2.Hctr2, see Findings: each panic message in the source's order, no state change on panic; otherwise the ciphertext prefix is the HCTR2 encryption and the rest of the buffer is untouched |
| Hctr2.Decrypt | hctr2.go:147-158 | runs on the corrected Hctr2.Hctr2, see Findings: the same for decryption, with the plaintext and ciphertext roles swapped |
| Hctr2.EncryptDecrypt | hctr2.go:127-158 | for an invertible block cipher, decrypting an encryption with the same tweak gives the plaintext back, whatever the cache holds |
| Findings.RebuildCacheAsWritten | hctr2.go:208-221 | as written, state0 is the stale accumulator with the header folded in, while state1 is correct |
| Findings.InitTweakAsWritten | hctr2.go:197-240 | as written, the result is correct on a cache hit or when the accumulator happened to be zero |
| Findings.StaleCacheWitness | hctr2.go:212-214 | after a tweak-length change with a non-zero leftover accumulator, the as-written state differs from the tweak hash |
| Findings.TweakHashWitness | hctr2.go:197-240 | the correct tweak hash for the empty tweak under the witness key is a specific non-zero element |
| Findings.PassAsWritten | hctr2.go:188-194 | as written, the pass agrees with HCTR2 when dst and src have the same length |
| Findings.SpareBytesWitness | hctr2.go:188-194 | when dst is one block longer than a one-block src, the first output block depends on the spare bytes |
| Findings.SpareBytesConcrete | hctr2.go:188-194 | a concrete key, tweak and spare bytes for which the first output block differs from HCTR2's |

## Left out

- AES itself, `expandKeyAsm`, `decryptBlockAsm` and the AES instructions are foreign assembly. They are parameters of the model. `encryptBlockAsm` is taken to run the schedule that `state.encrypt` emits.
- The generated body of `ctmul` (`ctmul_*.go`) is not part of this model. `CarryLess.CtMul` is the bit-serial carry-less product it computes.
- The assembly POLYVAL (`polyvalAsm`, `haveAsm`), `haveAES`, the `crypto/aes` fallback of `newCipher`, build tags and stub files are not modelled. They choose between implementations, not behaviour.
- Instruction selection, register allocation and the byte-swap/shuffle details in `asm/asm.go` are not modelled. Only the control flow of `declareXctrAsm` and the round schedule are.
- The proof that Karatsuba with Montgomery reduction is multiplication in GF(2^128) by x^-128 is not given. The model proves Karatsuba equals the schoolbook product and the reduction's behaviour on the high half.
- `fieldElement.String` and the test file are not modelled.
- Concurrency and the scratch fields `mm`, `uu`, `s`, `ctr` and `sum` are not modelled. Scratch values are locals; the methods use value semantics.
- Aliasing is not modelled beyond `InexactOverlap`. An exact overlap of dst and src is allowed by the checks and is harmless under value semantics.
- Memory safety of the raw memory accesses is not modelled. When the bulk XCTR branch writes past the end of a short dst, that is reported as the panic the following slice expression raises.
- The comment at polyval.go:73 names a different polynomial from the one the code reduces by. The model follows the code.
- The external `polyval` package that `hctr2.go` uses is modelled by `Polyval` with `Marshal`/`Unmarshal` of the accumulator. Its `MarshalBinary` and `UnmarshalBinary` errors are ignored, as in the source.
- Polyval.Update: states only that the key is kept. What it absorbs is stated by Polyval.UpdateBlocksIsHorner.
- HctrMode.Transform: states only length preservation. Its meaning is given by HctrMode.RoundTrip.
- Hctr2.RebuildCache, Hctr2.InitTweak, Hctr2.Hctr2, Hctr2.Encrypt and Hctr2.Decrypt model the corrected code of the two Findings: the hash is reset before the first header, and V = dst[16:len(src)]. The code as written is modelled by the members of `findings.dfy`.
- Go's `int` width for lengths is not modelled. The header word wraps modulo 2^64 as in the source.

## Findings

| source | as written | input that shows it | evidently intended | confidence | as-written member | corrected member |
|---|---|---|---|---|---|---|
| hctr2.go:212-214 | when the tweak length changes, `initTweak` calls `Update` on the hash still holding the previous call's accumulator and only then `Reset`, so `state0` is the stale accumulator with the header folded in | hash key h with words hi = 1, lo = 0 and a leftover accumulator equal to the empty-tweak header (lo = 2, hi = 0) from the previous message, cached tweak length 1, then a call with an empty tweak and a whole-block tail: the new state0 is the zero element instead of the header hash (hi = 3, lo = 0x8400000000000000) | reset the hash before absorbing the header, as it is for `state1` | not executed | Findings.StaleCacheWitness | Hctr2.InitTweak |
| hctr2.go:188-194 | V is `dst[BlockSize:]`, the whole rest of the output buffer, so when len(dst) > len(src) the final hash covers dst's spare bytes too | src one block long, dst 32 bytes whose last 16 bytes encode the empty tweak's hash state, key h with words hi = 1, lo = 0, empty tweak: the first output block differs from HCTR2's first block | hash only `dst[BlockSize:len(src)]`, the XCTR output | not executed | Findings.SpareBytesWitness | Hctr2.Hctr2 |
