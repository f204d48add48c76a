/** The keyed round function of the cipher (src/lib.rs `sipround` and
    `round`): the SipRound permutation of SipHash over four 64-bit words,
    applied four times to a state made of the round number, the right half,
    the seed and a fixed constant. */
module SipHash {

  /** The fourth word of every starting state. Without it the state
      (0, 0, 0, 0), reached when the round number, the right half and the
      seed are all zero, would be mapped to itself. */
  const ROUND_KEY: bv64 := 0xf3016d19bc9ad940

  datatype State = State(v0: bv64, v1: bv64, v2: bv64, v3: bv64)

  const ZERO: State := State(0, 0, 0, 0)

  // The u64 operations of a SipRound, named after their Rust methods, and
  // the ones that undo them. Each cancellation lemma is proved once on the
  // bit-vector operators; the round-level proofs then only chain them.

  /** `u64::wrapping_add`. */
  function WrappingAdd(x: bv64, y: bv64): bv64
  {
    x + y
  }

  /** `u64::wrapping_sub`. */
  function WrappingSub(x: bv64, y: bv64): bv64
  {
    x - y
  }

  /** `u64::rotate_left`. */
  function RotateLeft(x: bv64, n: nat): bv64
    requires n < 64
  {
    x.RotateLeft(n)
  }

  /** `u64::rotate_right`. */
  function RotateRight(x: bv64, n: nat): bv64
    requires n < 64
  {
    x.RotateRight(n)
  }

  /** `^` on `u64`. */
  function Xor(x: bv64, y: bv64): bv64
  {
    x ^ y
  }

  lemma SubAfterAdd(x: bv64, y: bv64)
    ensures WrappingSub(x + y, y) == x
  {
  }

  lemma AddAfterSub(x: bv64, y: bv64)
    ensures WrappingAdd(x - y, y) == x
  {
  }

  lemma SubUndoesAdd(x: bv64, y: bv64)
    ensures WrappingSub(WrappingAdd(x, y), y) == x
    ensures WrappingAdd(WrappingSub(x, y), y) == x
  {
    SubAfterAdd(x, y);
    AddAfterSub(x, y);
  }

  lemma RightAfterLeft(x: bv64, n: nat)
    requires n < 64
    ensures RotateRight(x.RotateLeft(n), n) == x
    ensures RotateLeft(x.RotateRight(n), n) == x
  {
  }

  lemma RotateRightUndoesLeft(x: bv64, n: nat)
    requires n < 64
    ensures RotateRight(RotateLeft(x, n), n) == x
    ensures RotateLeft(RotateRight(x, n), n) == x
  {
    RightAfterLeft(x, n);
  }

  lemma XorAfterXor(x: bv64, y: bv64)
    ensures Xor(x ^ y, y) == x
  {
  }

  lemma XorUndoesXor(x: bv64, y: bv64)
    ensures Xor(Xor(x, y), y) == x
  {
    XorAfterXor(x, y);
  }

  /** `sipround`: two add-rotate-xor half rounds. */
  function SipRound(s: State): State
  {
    var v0 := WrappingAdd(s.v0, s.v1);
    var v2 := WrappingAdd(s.v2, s.v3);
    var v1 := Xor(RotateLeft(s.v1, 13), v0);
    var v3 := Xor(RotateLeft(s.v3, 16), v2);
    var v0' := RotateLeft(v0, 32);

    var v2' := WrappingAdd(v2, v1);
    var v0'' := WrappingAdd(v0', v3);
    var v1' := Xor(RotateLeft(v1, 17), v2');
    var v3' := Xor(RotateLeft(v3, 21), v0'');
    var v2'' := RotateLeft(v2', 32);
    State(v0'', v1', v2'', v3')
  }

  /** SipRound run backwards, each step undone in the opposite order. */
  function SipRoundInverse(t: State): State
  {
    var v2' := RotateRight(t.v2, 32);
    var v3 := RotateRight(Xor(t.v3, t.v0), 21);
    var v1 := RotateRight(Xor(t.v1, v2'), 17);
    var v0' := WrappingSub(t.v0, v3);
    var v2 := WrappingSub(v2', v1);

    var v0 := RotateRight(v0', 32);
    var s3 := RotateRight(Xor(v3, v2), 16);
    var s1 := RotateRight(Xor(v1, v0), 13);
    State(WrappingSub(v0, s1), s1, WrappingSub(v2, s3), s3)
  }

  /** SipRound is a permutation of the 2^256 states: SipRoundInverse undoes
      it, and it undoes SipRoundInverse. */
  lemma SipRoundInverts(s: State)
    ensures SipRoundInverse(SipRound(s)) == s
  {
    var v0 := WrappingAdd(s.v0, s.v1);
    var v2 := WrappingAdd(s.v2, s.v3);
    var v1 := Xor(RotateLeft(s.v1, 13), v0);
    var v3 := Xor(RotateLeft(s.v3, 16), v2);
    var v0' := RotateLeft(v0, 32);
    var v2' := WrappingAdd(v2, v1);
    var v0'' := WrappingAdd(v0', v3);
    RotateRightUndoesLeft(v2', 32);
    XorUndoesXor(RotateLeft(v3, 21), v0'');
    RotateRightUndoesLeft(v3, 21);
    XorUndoesXor(RotateLeft(v1, 17), v2');
    RotateRightUndoesLeft(v1, 17);
    SubUndoesAdd(v0', v3);
    SubUndoesAdd(v2, v1);
    RotateRightUndoesLeft(v0, 32);
    XorUndoesXor(RotateLeft(s.v3, 16), v2);
    RotateRightUndoesLeft(s.v3, 16);
    XorUndoesXor(RotateLeft(s.v1, 13), v0);
    RotateRightUndoesLeft(s.v1, 13);
    SubUndoesAdd(s.v0, s.v1);
    SubUndoesAdd(s.v2, s.v3);
  }

  lemma SipRoundInverseInverts(t: State)
    ensures SipRound(SipRoundInverse(t)) == t
  {
    var v2' := RotateRight(t.v2, 32);
    var v3 := RotateRight(Xor(t.v3, t.v0), 21);
    var v1 := RotateRight(Xor(t.v1, v2'), 17);
    var v0' := WrappingSub(t.v0, v3);
    var v2 := WrappingSub(v2', v1);
    var v0 := RotateRight(v0', 32);
    var s3 := RotateRight(Xor(v3, v2), 16);
    var s1 := RotateRight(Xor(v1, v0), 13);
    SubUndoesAdd(v0, s1);
    SubUndoesAdd(v2, s3);
    RotateRightUndoesLeft(Xor(v1, v0), 13);
    XorUndoesXor(v1, v0);
    RotateRightUndoesLeft(Xor(v3, v2), 16);
    XorUndoesXor(v3, v2);
    RotateRightUndoesLeft(v0', 32);
    SubUndoesAdd(v2', v1);
    SubUndoesAdd(t.v0, v3);
    RotateRightUndoesLeft(Xor(t.v1, v2'), 17);
    XorUndoesXor(t.v1, v2');
    RotateRightUndoesLeft(Xor(t.v3, t.v0), 21);
    XorUndoesXor(t.v3, t.v0);
    RotateRightUndoesLeft(t.v2, 32);
  }

  /** The all-zero state is a fixed point of SipRound, and the only state
      that SipRound maps to it. */
  lemma SipRoundZero(s: State)
    ensures SipRound(s) == ZERO <==> s == ZERO
  {
    SipRoundInverts(s);
    assert SipRoundInverse(ZERO) == ZERO;
    assert SipRound(ZERO) == ZERO;
  }

  /** The state `round` starts from. */
  function Start(seed: bv64, j: bv64, right: bv64): (s: State)
    ensures s != ZERO
  {
    State(j, right, seed, ROUND_KEY)
  }

  /** `round`: v0 after four SipRounds. The fourth SipRound is computed in
      full, of which only v0 is kept. */
  function Round(seed: bv64, j: bv64, right: bv64): bv64
  {
    var s := Start(seed, j, right);
    SipRound(SipRound(SipRound(SipRound(s)))).v0
  }

  /** None of the five states `round` passes through is the all-zero one,
      whatever the seed, round number and right half: the starting state is
      not, and SipRound maps only the all-zero state to it. */
  lemma RoundNeverZero(seed: bv64, j: bv64, right: bv64)
    ensures var s0 := Start(seed, j, right);
      var s1 := SipRound(s0);
      var s2 := SipRound(s1);
      var s3 := SipRound(s2);
      s1 != ZERO && s2 != ZERO && s3 != ZERO && SipRound(s3) != ZERO
  {
    var s0 := Start(seed, j, right);
    var s1 := SipRound(s0);
    var s2 := SipRound(s1);
    var s3 := SipRound(s2);
    SipRoundZero(s0);
    SipRoundZero(s1);
    SipRoundZero(s2);
    SipRoundZero(s3);
  }
}
