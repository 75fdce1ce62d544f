/** The AES round schedule that `state.encrypt` of asm/asm.go emits: the
    initial round key addition, then AESENC rounds, then one AESENCLAST,
    each reading its round key at a byte offset into the expanded key.
    The AES instructions themselves are abstract functions; what is
    modelled is which instruction runs with which key, in which order. */
module Rounds {
  import opened Bytes

  /** The expanded key schedule as the uint32 words Go keeps it in. */
  type Word = bv32

  /** One emitted AES step, with the byte offset of its round key:
      PXOR of the key (AddKey), AESENC (Round) or AESENCLAST (LastRound). */
  datatype Op = AddKey(off: nat) | Round(off: nat) | LastRound(off: nat)

  /** The AES instructions as functions of a round key (four words) and
      the state. */
  datatype RoundFns = RoundFns(
    addKey: (seq<Word>, Block) -> Block,
    round: (seq<Word>, Block) -> Block,
    last: (seq<Word>, Block) -> Block)

  /** The number of rounds the code path for `nrounds` performs: the
      comparison with 12 picks the AES-192 path on equality, the AES-128
      path below and the AES-256 path above. */
  function RoundsOf(nrounds: int): (n: nat)
    ensures n in {10, 12, 14}
    ensures nrounds in {10, 12, 14} ==> n == nrounds
  {
    if nrounds == 12 then 12 else if nrounds < 12 then 10 else 14
  }

  /** AESENC rounds 1..m, round k with the key at byte offset 16k. */
  function MiddleRounds(m: nat): (ops: seq<Op>)
    ensures |ops| == m
    ensures forall k | 0 <= k < m :: ops[k] == Round(16 * (k + 1))
  {
    seq(m, k requires 0 <= k < m => Round(16 * (k + 1)))
  }

  lemma MiddleRoundsSnoc(m: nat)
    ensures MiddleRounds(m) + [Round(16 * (m + 1))] == MiddleRounds(m + 1)
  {
  }

  /** AES with `n` rounds: key 0 added, rounds 1..n-1, the last round n,
      round key k read at byte offset 16k. */
  function Reference(n: nat): (ops: seq<Op>)
    requires n >= 1
    ensures |ops| == n + 1
  {
    [AddKey(0)] + MiddleRounds(n - 1) + [LastRound(16 * n)]
  }

  /** Every round key 0..n is read exactly once, in ascending order: op k
      reads offset 16k, the first adds the key, the last is AESENCLAST and
      all others are AESENC. */
  lemma ReferenceOffsets(n: nat)
    requires n >= 1
    ensures forall k | 0 <= k < |Reference(n)| :: Reference(n)[k].off == 16 * k
    ensures forall k, l | 0 <= k < l < |Reference(n)| :: Reference(n)[k].off < Reference(n)[l].off
    ensures Reference(n)[0].AddKey? && Reference(n)[n].LastRound?
    ensures forall k | 0 < k < n :: Reference(n)[k].Round?
  {
    var ops := Reference(n);
    forall k | 0 <= k < |ops|
      ensures ops[k].off == 16 * k
      ensures 0 < k < n ==> ops[k].Round?
    {
      if 0 < k < n {
        assert ops[k] == Round(16 * k);
      }
    }
  }

  /** The number of AESENC and AESENCLAST steps. */
  function NumRounds(ops: seq<Op>): nat
  {
    if |ops| == 0 then 0 else (if ops[0].AddKey? then 0 else 1) + NumRounds(ops[1..])
  }

  lemma {:induction false} NumRoundsAppend(a: seq<Op>, b: seq<Op>)
    ensures NumRounds(a + b) == NumRounds(a) + NumRounds(b)
    decreases |a|
  {
    if |a| == 0 {
      assert a + b == b;
    } else {
      NumRoundsAppend(a[1..], b);
      assert (a + b)[1..] == a[1..] + b;
    }
  }

  lemma {:induction false} NumRoundsAllRounds(ops: seq<Op>)
    requires forall k | 0 <= k < |ops| :: !ops[k].AddKey?
    ensures NumRounds(ops) == |ops|
    decreases |ops|
  {
    if |ops| != 0 {
      NumRoundsAllRounds(ops[1..]);
    }
  }

  /** n - 1 AESENC steps and one AESENCLAST: n rounds in all. */
  lemma ReferenceRounds(n: nat)
    requires n >= 1
    ensures NumRounds(Reference(n)) == n
  {
    var mid := MiddleRounds(n - 1);
    NumRoundsAppend([AddKey(0)], mid + [LastRound(16 * n)]);
    NumRoundsAppend(mid, [LastRound(16 * n)]);
    NumRoundsAllRounds(mid);
    assert [AddKey(0)] + (mid + [LastRound(16 * n)]) == Reference(n);
  }

  /** state.encrypt: the steps emitted for a given `nrounds`. `idx` is the
      running byte offset into the key schedule, and key `i` of a group is
      read at idx + 16i. AES-256 enters at rounds 1-2, AES-192 at rounds
      3-4 and AES-128 at rounds 5-14, each falling through to the next. */
  method EncryptSchedule(nrounds: int) returns (ops: seq<Op>)
    ensures ops == Reference(RoundsOf(nrounds))
  {
    var idx := 0;
    ops := [AddKey(idx + 0)];
    idx := idx + 16;
    var enc256 := nrounds != 12 && !(nrounds < 12);
    var enc192 := enc256 || nrounds == 12;
    if enc256 {
      ops := ops + [Round(idx + 0), Round(idx + 16)];
      idx := idx + 32;
    }
    if enc192 {
      ops := ops + [Round(idx + 0), Round(idx + 16)];
      idx := idx + 32;
    }
    ghost var n := RoundsOf(nrounds);
    ghost var start := |ops|;
    assert idx == 16 * start;
    assert start == n - 9;
    assert ops == [AddKey(0)] + MiddleRounds(start - 1);
    var r := 0;
    while r < 9
      invariant 0 <= r <= 9
      invariant ops == [AddKey(0)] + MiddleRounds(start - 1 + r)
    {
      MiddleRoundsSnoc(start - 1 + r);
      ops := ops + [Round(idx + 16 * r)];
      r := r + 1;
    }
    ops := ops + [LastRound(idx + 16 * 9)];
  }

  /** The round key at byte offset `off`: four words. */
  function RoundKey(xk: seq<Word>, off: nat): seq<Word>
    requires off % 16 == 0 && off / 4 + 4 <= |xk|
  {
    xk[off / 4..off / 4 + 4]
  }

  /** Every step reads a round key that lies inside the schedule. */
  predicate InBounds(ops: seq<Op>, xk: seq<Word>)
  {
    forall k | 0 <= k < |ops| :: ops[k].off % 16 == 0 && ops[k].off / 4 + 4 <= |xk|
  }

  /** A schedule of nrounds + 1 keys covers every step of the reference. */
  lemma ReferenceInBounds(n: nat, xk: seq<Word>)
    requires n >= 1 && |xk| >= 4 * (n + 1)
    ensures InBounds(Reference(n), xk)
  {
    ReferenceOffsets(n);
  }

  function Step(fns: RoundFns, xk: seq<Word>, op: Op, v: Block): Block
    requires op.off % 16 == 0 && op.off / 4 + 4 <= |xk|
  {
    var rk := RoundKey(xk, op.off);
    match op
    case AddKey(_) => fns.addKey(rk, v)
    case Round(_) => fns.round(rk, v)
    case LastRound(_) => fns.last(rk, v)
  }

  /** The steps applied to one block in turn. */
  function Run(fns: RoundFns, xk: seq<Word>, ops: seq<Op>, v: Block): Block
    requires InBounds(ops, xk)
    decreases |ops|
  {
    if |ops| == 0 then v else Run(fns, xk, ops[1..], Step(fns, xk, ops[0], v))
  }

  /** The steps applied to several blocks as the emitted code does it:
      each step to every block before the next step. */
  function RunMany(fns: RoundFns, xk: seq<Word>, ops: seq<Op>, vs: seq<Block>): (r: seq<Block>)
    requires InBounds(ops, xk)
    ensures |r| == |vs|
    decreases |ops|
  {
    if |ops| == 0 then vs
    else RunMany(fns, xk, ops[1..], seq(|vs|, j requires 0 <= j < |vs| => Step(fns, xk, ops[0], vs[j])))
  }

  /** Interleaving the blocks round by round gives each block the same
      result as encrypting it alone. */
  lemma {:induction false} RunManyAt(fns: RoundFns, xk: seq<Word>, ops: seq<Op>, vs: seq<Block>, j: nat)
    requires InBounds(ops, xk) && j < |vs|
    ensures RunMany(fns, xk, ops, vs)[j] == Run(fns, xk, ops, vs[j])
    decreases |ops|
  {
    if |ops| != 0 {
      var next := seq(|vs|, i requires 0 <= i < |vs| => Step(fns, xk, ops[0], vs[i]));
      RunManyAt(fns, xk, ops[1..], next, j);
    }
  }

  /** The block cipher run by the emitted code for `nrounds`. */
  function ScheduleCipher(fns: RoundFns, xk: seq<Word>, nrounds: int): Block -> Block
    requires |xk| >= 4 * (RoundsOf(nrounds) + 1)
  {
    ReferenceInBounds(RoundsOf(nrounds), xk);
    v => Run(fns, xk, Reference(RoundsOf(nrounds)), v)
  }
}
