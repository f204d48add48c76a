/** Rust's `u64` and the operators of it that the cipher uses, modelled on
    natural numbers: `&` as a bitwise function, `>>` and `<<` with their
    discarded bits, `wrapping_add`, `next_power_of_two`, and the floating
    point square root as an integer floor square root. Each operator comes
    with the arithmetic reading the cipher relies on. */
module Word {
  import opened Arith

  const TWO_64: nat := 0x1_0000_0000_0000_0000

  /** A Rust `u64` (also `usize`, which is 64 bits wide on the platforms the
      crate targets). */
  type U64 = x: nat | x < TWO_64

  lemma Two64IsPow2()
    ensures Pow2(64) == TWO_64
  {
    var p8 := Pow2(8);
    assert p8 == 0x100;
    Pow2Add(8, 8);
    var p16 := Pow2(16);
    assert p16 == p8 * p8 == 0x1_0000;
    Pow2Add(16, 16);
    var p32 := Pow2(32);
    assert p32 == p16 * p16 == 0x1_0000_0000;
    Pow2Add(32, 32);
    assert Pow2(64) == p32 * p32;
  }

  /** Bitwise `&` of two naturals, bit by bit from the least significant. */
  function BitAnd(x: nat, y: nat): (r: nat)
    ensures r <= x && r <= y
  {
    if x == 0 || y == 0 then 0
    else 2 * BitAnd(x / 2, y / 2) + (if x % 2 == 1 && y % 2 == 1 then 1 else 0)
  }

  /** `x >> k`; Rust rejects shift amounts of 64 and more. */
  function Shr(x: U64, k: nat): U64
    requires k < 64
  {
    Div(x, Pow2(k))
  }

  /** `x << k`: the bits shifted past bit 63 are lost. */
  function Shl(x: U64, k: nat): U64
    requires k < 64
  {
    Mul(x, Pow2(k)) % TWO_64
  }

  /** `u64::wrapping_add`. */
  function WrappingAdd(x: U64, y: U64): U64
  {
    (x + y) % TWO_64
  }

  /** `x & (2^k - 1)` keeps the k low bits: it is the remainder modulo 2^k. */
  lemma {:induction false} BitAndLowMask(x: nat, k: nat)
    ensures BitAnd(x, Pow2(k) - 1) == x % Pow2(k)
  {
    if k == 0 {
    } else if x == 0 {
      ModSmall(0, Pow2(k));
    } else {
      var p, m := Pow2(k - 1), Pow2(k) - 1;
      assert m / 2 == p - 1 && m % 2 == 1 by {
        DivModUnique(m, 2, p - 1, 1);
      }
      BitAndLowMask(x / 2, k - 1);
      assert BitAnd(x, m) == 2 * ((x / 2) % p) + x % 2;
      ModOfDouble(x, p);
    }
  }

  /** `x >> k` is division by 2^k. */
  lemma ShrIsDiv(x: U64, k: nat)
    requires k < 64
    ensures Shr(x, k) == x / Pow2(k)
  {
    DivIsQuotient(x, Pow2(k));
  }

  /** `x << k` is multiplication by 2^k as long as nothing is shifted out. */
  lemma ShlIsMul(x: U64, k: nat)
    requires k < 64 && x * Pow2(k) < TWO_64
    ensures Shl(x, k) == x * Pow2(k)
  {
    MulIsProduct(x, Pow2(k));
    ModSmall(x * Pow2(k), TWO_64);
  }

  /** A wrapping sum masked to k <= 64 bits is the exact sum modulo 2^k: the
      wrap-around only drops bits above the mask. */
  lemma MaskedWrappingAdd(x: U64, y: U64, k: nat)
    requires k <= 64
    ensures BitAnd(WrappingAdd(x, y), Pow2(k) - 1) == (x + y) % Pow2(k)
  {
    var d, e := Pow2(k), Pow2(64 - k);
    assert d * e == TWO_64 by {
      Two64IsPow2();
      Pow2Add(k, 64 - k);
    }
    ModOfMultiple(x + y, d, e);
    BitAndLowMask(WrappingAdd(x, y), k);
  }

  /** r is the smallest power of two that is at least n. */
  predicate IsNextPowerOfTwo(n: nat, r: nat)
  {
    IsPowerOfTwo(r) && n <= r && (r == 1 || r / 2 < n)
  }

  /** Rust's `n.next_power_of_two()` (1 for n == 0). */
  function NextPowerOfTwo(n: nat): (r: nat)
    ensures r >= 1
    ensures IsNextPowerOfTwo(n, r)
  {
    if n <= 1 then
      PowerOfTwoIntro(0);
      1
    else
      var k := FloorLog2(n - 1);
      FloorLog2Bounds(n - 1);
      PowerOfTwoIntro(k + 1);
      Pow2(k + 1)
  }

  /** r is the square root of n rounded down. */
  predicate IsFloorSqrt(n: nat, r: nat)
  {
    Mul(r, r) <= n < Mul(r + 1, r + 1)
  }

  /** The integer square root, rounded down. */
  function ISqrt(n: nat): (r: nat)
    ensures IsFloorSqrt(n, r)
  {
    if n == 0 then 0
    else
      var h := ISqrt(n / 4);
      SqrtDoubling(n, h);
      if Mul(2 * h + 1, 2 * h + 1) <= n then 2 * h + 1 else 2 * h
  }

  /** From the root h of n / 4, the root of n is 2h or 2h + 1. */
  lemma SqrtDoubling(n: nat, h: nat)
    requires IsFloorSqrt(n / 4, h)
    ensures Mul(2 * h, 2 * h) <= n < Mul(2 * h + 2, 2 * h + 2)
    ensures Mul(2 * h + 1, 2 * h + 1) <= n ==> IsFloorSqrt(n, 2 * h + 1)
    ensures Mul(2 * h + 1, 2 * h + 1) > n ==> IsFloorSqrt(n, 2 * h)
  {
    MulIsProduct(h, h);
    MulIsProduct(h + 1, h + 1);
    MulIsProduct(2 * h, 2 * h);
    MulIsProduct(2 * h + 1, 2 * h + 1);
    MulIsProduct(2 * h + 2, 2 * h + 2);
    ScaleSquares(n, h);
  }

  lemma ScaleSquares(n: nat, h: nat)
    requires h * h <= n / 4 < (h + 1) * (h + 1)
    ensures (2 * h) * (2 * h) <= n < (2 * h + 2) * (2 * h + 2)
  {
    assert n == 4 * (n / 4) + n % 4;
    assert (2 * h) * (2 * h) == 4 * (h * h);
    assert (2 * h + 2) * (2 * h + 2) == 4 * ((h + 1) * (h + 1));
  }
}
