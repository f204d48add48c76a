/** The parameters of a `PerfectRng` (src/lib.rs): the domain size, the key,
    the round count, and the two power-of-two half-domains a and b, stored as
    the masks a - 1 and b - 1 and the width of a in bits. A generator is an
    immutable value once built. */
module Params {
  import opened Arith
  import opened Word

  datatype PerfectRng = PerfectRng(
    range: U64,
    seed: U64,
    rounds: nat,
    aBits: nat,
    aMask: U64,
    bMask: U64)
  {
    /** The half-domain used by odd rounds and by the split. */
    function A(): nat { aMask + 1 }

    /** The half-domain used by even rounds. */
    function B(): nat { bMask + 1 }

    /** The size a * b of the superset domain the cipher permutes. */
    function Size(): nat { Mul(A(), B()) }

    /** What `new` guarantees and every other operation relies on: both
        masks are a power of two less one, `a_bits` is the width of the a
        mask, the superset domain [0, a * b) strictly contains [0, range)
        and every value of it is a `u64`, and the round counter fits a
        `usize`. */
    predicate Valid()
    {
      && aBits < 64
      && A() == Pow2(aBits)
      && IsPowerOfTwo(B())
      && range < Size() <= TWO_64
      && rounds < TWO_64
    }
  }

  /** `count_bits`: shifts `num` right until at most one bit is left; the
      number of shifts is the index of the highest set bit. */
  method CountBits(num: U64) returns (bits: nat)
    ensures bits == FloorLog2(num) && bits < 64
    ensures num >= 1 ==> Pow2(bits) <= num < Pow2(bits + 1)
  {
    bits := 0;
    ShrIsDiv(num, 0);
    while Shr(num, bits) > 1
      invariant bits < 64
      invariant FloorLog2(num) == bits + FloorLog2(Shr(num, bits))
      decreases 64 - bits
    {
      ShiftOnceMore(num, bits);
      bits := bits + 1;
    }
    if num >= 1 {
      FloorLog2Bounds(num);
    }
  }

  /** While more than one bit is left after shifting by k, one more shift is
      possible and removes exactly one bit. */
  lemma ShiftOnceMore(num: U64, k: nat)
    requires k < 64 && Shr(num, k) > 1
    ensures k + 1 < 64
    ensures FloorLog2(Shr(num, k)) == 1 + FloorLog2(Shr(num, k + 1))
  {
    var q, d := Shr(num, k), Pow2(k);
    ShrIsDiv(num, k);
    QuotientAtLeast(num, d, 2);
    assert Pow2(k + 1) == 2 * d <= num;
    assert k + 1 < 64 by {
      Two64IsPow2();
      Pow2Le(64, k + 1);
    }
    assert q / 2 == Shr(num, k + 1) by {
      ShrIsDiv(num, k + 1);
      DivDiv(num, d, 2);
    }
  }

  /** `PerfectRng::new`. The floating point `(range as f64).sqrt() as u64`
      is the integer square root here (they agree whenever range < 2^52). */
  function New(range: U64, seed: U64, rounds: nat): (p: PerfectRng)
    requires rounds < TWO_64
    ensures p.Valid()
    ensures p.range == range && p.seed == seed && p.rounds == rounds
  {
    var s := ISqrt(range);
    var a := NextPowerOfTwo(s + 1);
    var b := NextPowerOfTwo(Div(range, a) + 1);
    HalfDomains(range, s, a, b);
    NewIsValid(range, seed, rounds, a, b);
    PerfectRng(range, seed, rounds, FloorLog2(a), a - 1, b - 1)
  }

  lemma NewIsValid(range: U64, seed: U64, rounds: nat, a: nat, b: nat)
    requires rounds < TWO_64
    requires 1 <= a < TWO_64 && 1 <= b < TWO_64
    requires FloorLog2(a) < 64 && a == Pow2(FloorLog2(a)) && IsPowerOfTwo(b)
    requires range < Mul(a, b) <= TWO_64
    ensures PerfectRng(range, seed, rounds, FloorLog2(a), a - 1, b - 1).Valid()
  {
    MulIsProduct(a, b);
  }

  /** The two half-domains are balanced: b never exceeds a, and a * b is less
      than twice the range, so on average the cycle walk of `shuffle` applies
      `encrypt` fewer than two times. */
  lemma NewBalanced(range: U64, seed: U64, rounds: nat)
    requires rounds < TWO_64
    ensures New(range, seed, rounds).B() <= New(range, seed, rounds).A()
    ensures range > 0 ==> New(range, seed, rounds).A() * New(range, seed, rounds).B() <= 2 * range
  {
    var s := ISqrt(range);
    var a := NextPowerOfTwo(s + 1);
    var b := NextPowerOfTwo(Div(range, a) + 1);
    HalfDomains(range, s, a, b);
    MulIsProduct(a, b);
    var p := New(range, seed, rounds);
    assert p.A() == a && p.B() == b;
  }

  /** `PerfectRng::from_range`: the default of three rounds, with the seed
      supplied by the caller in place of the random number generator. */
  function FromRange(range: U64, entropy: U64): (p: PerfectRng)
    ensures p.Valid() && p.range == range && p.rounds == 3
  {
    New(range, entropy, 3)
  }

  /** The arithmetic behind `new`: a is the first power of two above the
      square root s, b the first one above range / a; so range < a * b,
      b <= a, a * b overshoots range by at most a factor of two, and both
      masks fit a `u64`. */
  lemma HalfDomains(range: U64, s: nat, a: nat, b: nat)
    requires IsFloorSqrt(range, s)
    requires IsNextPowerOfTwo(s + 1, a) && a > 0
    requires IsNextPowerOfTwo(Div(range, a) + 1, b)
    ensures 1 <= a < TWO_64 && 1 <= b < TWO_64
    ensures FloorLog2(a) < 64 && a == Pow2(FloorLog2(a)) && IsPowerOfTwo(b)
    ensures b <= a && range < Mul(a, b) <= TWO_64
    ensures range > 0 ==> Mul(a, b) <= 2 * range
  {
    DivIsQuotient(range, a);
    FirstHalf(range, s, a);
    DivisorHalf(range, a, b);
    if range > 0 {
      MulIsProduct(s, s);
      Overshoot(range, s, a, b);
    }
    ProductFits(range, a, b);
    MulIsProduct(a, b);
    Two64IsPow2();
    Pow2Le(64, 32);
  }

  /** a, the first power of two above the square root of a `u64`, has at
      most 32 bits, and its square exceeds the range. */
  lemma FirstHalf(range: U64, s: nat, a: nat)
    requires IsFloorSqrt(range, s) && IsNextPowerOfTwo(s + 1, a)
    ensures a <= Pow2(32) && FloorLog2(a) <= 32
    ensures range < a * a
    ensures range == 0 ==> a == 1
  {
    MulIsProduct(s, s);
    MulIsProduct(s + 1, s + 1);
    SqrtOfWord(range, s);
    PowerOfTwoIntro(32);
    if a > 1 {
      PowerOfTwoOrder(a, Pow2(32), s + 1);
    }
    Pow2Le(FloorLog2(a), 32);
    SquareExceeds(range, s, a);
    if range == 0 {
      SquareGe(s);
    }
  }

  lemma SqrtOfWord(range: U64, s: nat)
    requires s * s <= range
    ensures s < Pow2(32)
  {
    Two64IsPow2();
    Pow2Add(32, 32);
    if s >= Pow2(32) {
      MulLe(Pow2(32), s, Pow2(32));
      MulLe(Pow2(32), s, s);
    }
  }

  lemma SquareExceeds(range: nat, s: nat, a: nat)
    requires range < (s + 1) * (s + 1) && s + 1 <= a
    ensures range < a * a
  {
    MulLe(s + 1, a, s + 1);
    MulLe(s + 1, a, a);
  }

  /** b is the first power of two above range / a, and range < a * a: so
      range < a * b and b <= a. */
  lemma DivisorHalf(range: nat, a: nat, b: nat)
    requires IsPowerOfTwo(a) && range < a * a
    requires IsNextPowerOfTwo(range / a + 1, b)
    ensures b <= a && range < a * b
  {
    var q := range / a;
    assert q < a by {
      QuotientBound(range, a, a);
    }
    if b > 1 {
      PowerOfTwoOrder(b, a, q + 1);
    }
    BelowNextMultiple(range, a, b);
  }

  /** a * b is at most twice the range. */
  lemma Overshoot(range: nat, s: nat, a: nat, b: nat)
    requires range > 0 && s * s <= range
    requires IsNextPowerOfTwo(s + 1, a) && IsNextPowerOfTwo(range / a + 1, b)
    ensures a * b <= 2 * range
  {
    if b == 1 {
      if a > 1 {
        PowerOfTwoEven(a);
      }
      SquareGe(s);
    } else {
      PowerOfTwoEven(b);
      OvershootByB(range, a, b / 2);
    }
  }

  lemma OvershootByB(range: nat, a: nat, h: nat)
    requires a >= 1 && h <= range / a
    ensures a * (2 * h) <= 2 * range
  {
    MulLe(h, range / a, a);
    DivModUnique(range, a, range / a, range % a);
    assert a * (2 * h) == 2 * (h * a);
  }

  lemma ProductFits(range: U64, a: nat, b: nat)
    requires IsPowerOfTwo(a) && IsPowerOfTwo(b)
    requires range > 0 ==> a * b <= 2 * range
    requires range == 0 ==> a * b == 1
    ensures a * b <= TWO_64
  {
    var ka, kb := FloorLog2(a), FloorLog2(b);
    Pow2Add(ka, kb);
    Two64IsPow2();
    Pow2Add(64, 1);
    if ka + kb > 64 {
      Pow2Le(65, ka + kb);
    }
    Pow2Le(ka + kb, 64);
  }
}
