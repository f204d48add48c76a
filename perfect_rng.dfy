/** `PerfectRng::encrypt` and `PerfectRng::shuffle` (src/lib.rs): the
    Blackrock cipher on the superset domain [0, a * b), with the SipHash
    round function as its Feistel round function, and the cycle walk that
    narrows it to a permutation of [0, range). */
module Blackrock {
  import opened Arith
  import opened Word
  import opened Params
  import SipHash
  import Feistel
  import CycleWalk

  /** A 64-bit word as a `u64`. */
  function ToU64(x: bv64): U64
  {
    x as nat
  }

  /** `round(j, right)` on the generator's seed, as a `u64`. */
  function RoundValue(p: PerfectRng, j: U64, right: U64): U64
  {
    ToU64(SipHash.Round(p.seed as bv64, j as bv64, right as bv64))
  }

  /** The Feistel round function of a generator. The network only ever
      passes it round numbers and halves below 2^64, on which the reduction
      modulo 2^64 changes nothing. */
  function RoundFn(p: PerfectRng): Feistel.RoundFunction
  {
    (j: nat, right: nat) => RoundValue(p, j % TWO_64, right % TWO_64)
  }

  /** What `encrypt` computes, as a function of the value. */
  function Cipher(p: PerfectRng): nat -> nat
  {
    m => Feistel.Encrypt(RoundFn(p), p.A(), p.B(), p.rounds, m)
  }

  /** Its inverse: the Feistel network run backwards. */
  function Decipher(p: PerfectRng): nat -> nat
  {
    c => Feistel.Decrypt(RoundFn(p), p.A(), p.B(), p.rounds, c)
  }

  /** What `shuffle` computes: the first value after m on its cycle under
      the cipher that lies below `range`. */
  function ShuffleOf(p: PerfectRng, m: nat): nat
  {
    CycleWalk.Next(Cipher(p), p.Size(), p.range, m)
  }

  /** The inverse of `shuffle`: the same walk with the inverse cipher. */
  function UnshuffleOf(p: PerfectRng, c: nat): nat
  {
    CycleWalk.Next(Decipher(p), p.Size(), p.range, c)
  }

  // ---------------------------------------------------------------------
  // encrypt

  /** `m & a_mask` and `m >> a_bits` are the remainder and the quotient by
      a. */
  lemma SplitIsMasked(p: PerfectRng, m: U64)
    requires p.Valid()
    ensures BitAnd(m, p.aMask) == Mod(m, p.A())
    ensures Shr(m, p.aBits) == Div(m, p.A())
  {
    BitAndLowMask(m, p.aBits);
    ModIsRemainder(m, p.A());
  }

  /** `j & 1 == 1` tests that j is odd. */
  lemma OddBit(j: nat)
    ensures BitAnd(j, 1) == j % 2
  {
    BitAndLowMask(j, 1);
  }

  /** The round function of the network gives `round(j, right)` on the
      arguments the loop passes it. */
  lemma RoundFnAt(p: PerfectRng, j: U64, right: U64)
    ensures RoundFn(p)(j, right) == RoundValue(p, j, right)
  {
    ModSmall(j, TWO_64);
    ModSmall(right, TWO_64);
  }

  /** The b mask is k low bits for some k <= 64. */
  lemma BMaskWidth(p: PerfectRng) returns (kb: nat)
    requires p.Valid()
    ensures kb <= 64 && p.B() == Pow2(kb)
  {
    kb := FloorLog2(p.B());
    assert p.B() <= TWO_64 by {
      MulIsProduct(p.A(), p.B());
      MulLe(1, p.A(), p.B());
    }
    Two64IsPow2();
    Pow2Le(kb, 64);
  }

  /** A Feistel step whose modulus is 2^k, k <= 64, adds with wrap-around
      and keeps the k low bits. */
  lemma MaskedStep(F: Feistel.RoundFunction, a: nat, b: nat, j: nat, left: U64, right: U64, f: U64, k: nat)
    requires a >= 1 && b >= 1 && F(j, right) == f
    requires k <= 64 && Feistel.Modulus(a, b, j) == Pow2(k)
    ensures Feistel.Step(F, a, b, j, Feistel.Halves(left, right))
      == Feistel.Halves(right, BitAnd(WrappingAdd(left, f), Pow2(k) - 1))
  {
    MaskedWrappingAdd(left, f, k);
    ModIsRemainder(left + f, Pow2(k));
  }

  /** One round of the loop: the wrapping sum masked with the mask of the
      round's half-domain is the sum modulo that half-domain, which is the
      Feistel step. */
  lemma RoundIsStep(p: PerfectRng, F: Feistel.RoundFunction, j: nat, left: U64, right: U64, f: U64)
    requires p.Valid() && F(j, right) == f
    ensures var h := Feistel.Step(F, p.A(), p.B(), j, Feistel.Halves(left, right));
      && (j % 2 == 1 ==> h == Feistel.Halves(right, BitAnd(WrappingAdd(left, f), p.aMask)))
      && (j % 2 == 0 ==> h == Feistel.Halves(right, BitAnd(WrappingAdd(left, f), p.bMask)))
  {
    if j % 2 == 1 {
      MaskedStep(F, p.A(), p.B(), j, left, right, f, p.aBits);
    } else {
      var kb := BMaskWidth(p);
      MaskedStep(F, p.A(), p.B(), j, left, right, f, kb);
    }
  }

  /** The start of `encrypt`: m split into its low `a_bits` bits and the
      bits above them. */
  method Split(p: PerfectRng, m: U64) returns (left: U64, right: U64)
    requires p.Valid() && m < p.Size()
    ensures Feistel.Halves(left, right) == Feistel.Split(p.A(), m)
    ensures Feistel.Fits(p.A(), p.B(), 1, Feistel.Halves(left, right))
  {
    left := BitAnd(m, p.aMask);
    right := Shr(m, p.aBits);
    SplitIsMasked(p, m);
    Feistel.SplitFits(p.A(), p.B(), m);
  }

  /** One pass of the loop of `encrypt`: round j adds the round value to
      the left half, keeps the bits of the half-domain that `j & 1` selects,
      and swaps the halves. From the halves after round done = j - 1 it
      gives the halves after round j. */
  method EncryptRound(p: PerfectRng, F: Feistel.RoundFunction, ghost h0: Feistel.Halves, ghost done: nat,
                      j: U64, left: U64, right: U64) returns (left': U64, right': U64)
    requires forall i, x :: F(i, x) < TWO_64
    requires p.Valid() && j == done + 1
    requires Feistel.Halves(left, right) == Feistel.Forward(F, p.A(), p.B(), done, h0)
    requires Feistel.Fits(p.A(), p.B(), j, Feistel.Halves(left, right))
    ensures Feistel.Halves(left', right') == Feistel.Forward(F, p.A(), p.B(), j, h0)
    ensures Feistel.Fits(p.A(), p.B(), j + 1, Feistel.Halves(left', right'))
  {
    var f: U64 := F(j, right);
    Feistel.StepFits(F, p.A(), p.B(), j, Feistel.Halves(left, right));
    RoundIsStep(p, F, j, left, right, f);
    OddBit(j);
    if BitAnd(j, 1) == 1 {
      var tmp := BitAnd(WrappingAdd(left, f), p.aMask);
      left', right' := right, tmp;
    } else {
      var tmp := BitAnd(WrappingAdd(left, f), p.bMask);
      left', right' := right, tmp;
    }
  }

  /** The end of `encrypt`: the halves after the last round joined into one
      value, the half that the last round wrote shifted up. Nothing is
      shifted out, since the joined value lies below a * b <= 2^64. After
      the loop j is rounds + 1. */
  method Join(p: PerfectRng, j: U64, left: U64, right: U64) returns (c: U64)
    requires p.Valid() && j == p.rounds + 1
    requires Feistel.Fits(p.A(), p.B(), j, Feistel.Halves(left, right))
    ensures c == Feistel.Join(p.A(), p.rounds, Feistel.Halves(left, right))
    ensures c < p.Size()
  {
    Feistel.JoinFits(p.A(), p.B(), p.rounds, Feistel.Halves(left, right));
    if j % 2 == 0 {
      assert p.rounds % 2 == 1;
      ShiftJoin(p, left, right);
      c := Shl(left, p.aBits) + right;
    } else {
      assert p.rounds % 2 == 0;
      ShiftJoin(p, right, left);
      c := Shl(right, p.aBits) + left;
    }
  }

  lemma ShiftJoin(p: PerfectRng, hi: U64, lo: U64)
    requires p.Valid() && Mul(hi, p.A()) + lo < TWO_64
    ensures Shl(hi, p.aBits) + lo == Mul(hi, p.A()) + lo
  {
    MulIsProduct(hi, p.A());
    ShlIsMul(hi, p.aBits);
  }

  /** `encrypt` for any round function F with 64-bit values, on the values
      it is called with: those of the superset domain [0, a * b). The split,
      each pass of the loop and the final join are the methods above. */
  method EncryptWith(p: PerfectRng, F: Feistel.RoundFunction, m: U64) returns (c: U64)
    requires forall i, x :: F(i, x) < TWO_64
    requires p.Valid() && m < p.Size()
    requires p.rounds < TWO_64 - 1
    ensures c == Feistel.Encrypt(F, p.A(), p.B(), p.rounds, m)
    ensures c < p.Size()
  {
    var left, right := Split(p, m);
    var j: U64 := 1;
    ghost var done: nat := 0;
    ghost var h0 := Feistel.Split(p.A(), m);
    while j <= p.rounds
      invariant 1 <= j <= p.rounds + 1 && j == done + 1
      invariant Feistel.Halves(left, right) == Feistel.Forward(F, p.A(), p.B(), done, h0)
      invariant Feistel.Fits(p.A(), p.B(), j, Feistel.Halves(left, right))
      decreases p.rounds + 1 - j
    {
      left, right := EncryptRound(p, F, h0, done, j, left, right);
      done := j;
      j := j + 1;
    }

    c := Join(p, j, left, right);
  }

  /** `encrypt`: the cipher with `round` as its round function. */
  method Encrypt(p: PerfectRng, m: U64) returns (c: U64)
    requires p.Valid() && m < p.Size()
    requires p.rounds < TWO_64 - 1
    ensures c == Feistel.Encrypt(RoundFn(p), p.A(), p.B(), p.rounds, m)
    ensures c < p.Size()
  {
    c := EncryptWith(p, RoundFn(p), m);
  }

  // ---------------------------------------------------------------------
  // The cipher is a permutation

  /** Cipher and Decipher are inverse permutations of [0, a * b), for every
      seed and round count. */
  lemma CipherPermutes(p: PerfectRng)
    requires p.Valid()
    ensures CycleWalk.Inverses(Cipher(p), Decipher(p), p.Size())
  {
    forall x: nat | x < p.Size()
      ensures Cipher(p)(x) < p.Size() && Decipher(p)(Cipher(p)(x)) == x
    {
      Feistel.DecryptEncrypt(RoundFn(p), p.A(), p.B(), p.rounds, x);
    }
    forall y: nat | y < p.Size()
      ensures Decipher(p)(y) < p.Size() && Cipher(p)(Decipher(p)(y)) == y
    {
      Feistel.EncryptDecrypt(RoundFn(p), p.A(), p.B(), p.rounds, y);
    }
  }

  // ---------------------------------------------------------------------
  // shuffle

  lemma CipherIsEncrypt(p: PerfectRng, x: nat)
    ensures Cipher(p)(x) == Feistel.Encrypt(RoundFn(p), p.A(), p.B(), p.rounds, x)
  {
  }

  /** The cycle of m under the cipher returns to m after K <= a * b
      steps. */
  lemma CycleOfValue(p: PerfectRng, m: nat) returns (K: nat)
    requires p.Valid() && m < p.Size()
    ensures 1 <= K <= p.Size() && CycleWalk.Iter(Cipher(p), K, m) == m
  {
    CipherPermutes(p);
    K := CycleWalk.OrbitReturns(Cipher(p), Decipher(p), p.Size(), m);
  }

  /** `shuffle`: encrypt once, then again while the value is out of range.
      The loop ends because the value's cycle under the cipher returns to
      m, which is in range, after at most a * b steps. */
  method Shuffle(p: PerfectRng, m: U64) returns (c: U64)
    requires p.Valid() && m < p.range
    requires p.rounds < TWO_64 - 1
    ensures c == ShuffleOf(p, m)
    ensures c < p.range
  {
    ghost var E, n := Cipher(p), p.Size();
    ghost var K := CycleOfValue(p, m);

    c := Encrypt(p, m);
    CipherIsEncrypt(p, m);
    CycleWalk.WalkStart(E, n, p.range, m, c);
    ghost var i: nat := 1;
    while c >= p.range
      invariant 1 <= i <= K && c < n && CycleWalk.OnWalk(E, n, p.range, m, i, c)
      decreases K - i
    {
      ghost var prev := c;
      c := Encrypt(p, c);
      CipherIsEncrypt(p, prev);
      CycleWalk.WalkOn(E, n, p.range, m, K, i, prev, c);
      i := i + 1;
    }
    CycleWalk.WalkDone(E, n, p.range, m, i, c);
  }

  /** `shuffle` is a permutation of [0, range): its results are in range,
      and the inverse walk undoes it in both orders. */
  lemma ShufflePermutes(p: PerfectRng)
    requires p.Valid()
    ensures forall m: nat :: m < p.range ==> ShuffleOf(p, m) < p.range
    ensures forall m: nat :: m < p.range ==> UnshuffleOf(p, ShuffleOf(p, m)) == m
    ensures forall c: nat :: c < p.range ==> ShuffleOf(p, UnshuffleOf(p, c)) == c
  {
    CipherPermutes(p);
    CycleWalk.NextPermutes(Cipher(p), Decipher(p), p.Size(), p.range);
  }

  /** Shuffling every value of [0, range) hits every value of [0, range)
      exactly once: its only preimage is its unshuffle. */
  lemma ShuffleHitsEachOnce(p: PerfectRng, c: nat)
    requires p.Valid() && c < p.range
    ensures (set m: nat | m < p.range && ShuffleOf(p, m) == c) == {UnshuffleOf(p, c)}
    ensures |set m: nat | m < p.range && ShuffleOf(p, m) == c| == 1
  {
    CipherPermutes(p);
    CycleWalk.NextHitsEachOnce(Cipher(p), Decipher(p), p.Size(), p.range, c);
  }

  /** `shuffle` is injective on [0, range). */
  lemma ShuffleInjective(p: PerfectRng, m1: nat, m2: nat)
    requires p.Valid() && m1 < p.range && m2 < p.range
    requires ShuffleOf(p, m1) == ShuffleOf(p, m2)
    ensures m1 == m2
  {
    ShufflePermutes(p);
  }

  /** With no rounds the cipher is the identity, and so is `shuffle`. */
  lemma ShuffleZeroRounds(p: PerfectRng, m: nat)
    requires p.Valid() && p.rounds == 0 && m < p.range
    ensures ShuffleOf(p, m) == m
  {
    Feistel.EncryptZeroRounds(RoundFn(p), p.A(), p.B(), m);
  }
}
