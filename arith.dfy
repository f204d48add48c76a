/** Integer facts shared by the whole model: powers of two, the floor
    logarithm, and the division and remainder laws that the solver does not
    find on its own once the divisor is a variable. */
module Arith {

  /** 2^k. */
  function Pow2(k: nat): (r: nat)
    ensures r >= 1
  {
    if k == 0 then 1 else 2 * Pow2(k - 1)
  }

  lemma {:induction false} Pow2Add(i: nat, j: nat)
    ensures Pow2(i + j) == Pow2(i) * Pow2(j)
  {
    if i > 0 {
      Pow2Add(i - 1, j);
      assert Pow2(i + j) == 2 * Pow2(i - 1 + j);
    }
  }

  /** Powers of two are ordered exactly as their exponents. */
  lemma {:induction false} Pow2Le(i: nat, j: nat)
    ensures Pow2(i) <= Pow2(j) <==> i <= j
    decreases i + j
  {
    if i > 0 && j > 0 {
      Pow2Le(i - 1, j - 1);
    } else if i > 0 {
      assert j == 0;
      Pow2Le(i - 1, 0);
    } else if j > 0 {
      Pow2Le(0, j - 1);
    }
  }

  /** The position of the highest set bit; 0 for 0 and 1. */
  function FloorLog2(n: nat): nat
  {
    if n <= 1 then 0 else 1 + FloorLog2(n / 2)
  }

  lemma {:induction false} FloorLog2Bounds(n: nat)
    requires n >= 1
    ensures Pow2(FloorLog2(n)) <= n < Pow2(FloorLog2(n) + 1)
  {
    if n > 1 {
      FloorLog2Bounds(n / 2);
      var k := FloorLog2(n / 2);
      assert Pow2(k + 2) == 2 * Pow2(k + 1);
    }
  }

  /** The bounds determine the logarithm. */
  lemma FloorLog2Unique(n: nat, k: nat)
    requires Pow2(k) <= n < Pow2(k + 1)
    ensures FloorLog2(n) == k
  {
    FloorLog2Bounds(n);
    var r := FloorLog2(n);
    Pow2Le(k + 1, r);
    Pow2Le(r + 1, k);
  }

  lemma FloorLog2OfPow2(k: nat)
    ensures FloorLog2(Pow2(k)) == k
  {
    assert Pow2(k + 1) == 2 * Pow2(k);
    FloorLog2Unique(Pow2(k), k);
  }

  predicate IsPowerOfTwo(n: nat)
  {
    n >= 1 && Pow2(FloorLog2(n)) == n
  }

  lemma PowerOfTwoIntro(k: nat)
    ensures IsPowerOfTwo(Pow2(k))
  {
    FloorLog2OfPow2(k);
  }

  lemma PowerOfTwoEven(n: nat)
    requires IsPowerOfTwo(n) && n > 1
    ensures n == 2 * (n / 2)
  {
    assert n == 2 * Pow2(FloorLog2(n) - 1);
  }

  /** Of two powers of two, one that is at most half of n is no larger than
      one that is at least n. */
  lemma PowerOfTwoOrder(r: nat, x: nat, n: nat)
    requires IsPowerOfTwo(r) && IsPowerOfTwo(x)
    requires r / 2 < n <= x
    ensures r <= x
  {
    var i, j := FloorLog2(r), FloorLog2(x);
    if i > j {
      assert r / 2 == Pow2(i - 1);
      Pow2Le(j, i - 1);
    }
    Pow2Le(i, j);
  }

  /** Multiplication as repeated addition. The solver unfolds it one step at
      a time, so a definition stated with it does not bring products into
      every proof that mentions it; MulIsProduct recovers the product. */
  function Mul(x: nat, y: nat): nat
  {
    if x == 0 then 0 else y + Mul(x - 1, y)
  }

  lemma {:induction false} MulIsProduct(x: nat, y: nat)
    ensures Mul(x, y) == x * y
  {
    if x > 0 {
      MulIsProduct(x - 1, y);
    }
  }

  /** Division as repeated subtraction, for the same reason as Mul: a
      definition stated with it keeps the quotient by a variable out of the
      solver's nonlinear arithmetic. DivIsQuotient relates it to `/`. */
  function Div(x: nat, d: nat): (q: nat)
    requires d >= 1
    ensures q <= x
    decreases x
  {
    if x < d then 0 else 1 + Div(x - d, d)
  }

  lemma {:induction false} DivIsQuotient(x: nat, d: nat)
    requires d >= 1
    ensures Div(x, d) == x / d
    decreases x
  {
    if x < d {
      ModSmall(x, d);
    } else {
      DivIsQuotient(x - d, d);
      DivModUnique(x, d, (x - d) / d + 1, (x - d) % d);
    }
  }

  /** The remainder, as repeated subtraction; ModIsRemainder relates it to
      `%`. */
  function Mod(x: nat, d: nat): (r: nat)
    requires d >= 1
    ensures r < d && r <= x
    decreases x
  {
    if x < d then x else Mod(x - d, d)
  }

  lemma {:induction false} ModIsRemainder(x: nat, d: nat)
    requires d >= 1
    ensures Mod(x, d) == x % d
    decreases x
  {
    if x < d {
      ModSmall(x, d);
    } else {
      ModIsRemainder(x - d, d);
      DivModUnique(x, d, (x - d) / d + 1, (x - d) % d);
    }
  }

  // ---------------------------------------------------------------------
  // Division and remainder (Dafny's Euclidean operators; all divisors here
  // are positive, where they agree with Rust's).

  lemma MulLe(x: int, y: int, c: int)
    requires x <= y && c >= 0
    ensures x * c <= y * c
  {
    assert y * c - x * c == (y - x) * c;
  }

  lemma SquareGe(s: nat)
    ensures s <= s * s
  {
    if s > 0 { MulLe(1, s, s); }
  }

  lemma DivModUnique(n: int, d: int, q: int, r: int)
    requires d > 0 && 0 <= r < d && n == q * d + r
    ensures n / d == q && n % d == r
  {
    var q', r' := n / d, n % d;
    assert (q - q') * d == r' - r;
    if q > q' {
      MulLe(1, q - q', d);
    } else if q < q' {
      MulLe(1, q' - q, d);
    }
  }

  lemma ModSmall(x: int, d: int)
    requires 0 <= x < d
    ensures x % d == x && x / d == 0
  {
    DivModUnique(x, d, 0, x);
  }

  /** Adding a multiple of the divisor does not change the remainder. */
  lemma ModAddMultiple(x: int, k: int, d: int)
    requires d > 0
    ensures (x + k * d) % d == x % d
  {
    var q, r := x / d, x % d;
    assert x + k * d == (q + k) * d + r;
    DivModUnique(x + k * d, d, q + k, r);
  }

  /** Reducing a summand first does not change the remainder of a sum. */
  lemma ModSum(x: int, y: int, d: int)
    requires d > 0
    ensures (x % d + y) % d == (x + y) % d
  {
    assert x % d + y == (x + y) + (-(x / d)) * d;
    ModAddMultiple(x + y, -(x / d), d);
  }

  /** Reducing modulo a multiple of d and then modulo d is reducing modulo d. */
  lemma ModOfMultiple(x: int, d: int, e: int)
    requires d > 0 && e > 0
    ensures (x % (d * e)) % d == x % d
  {
    var t := x / (d * e);
    assert x % (d * e) == x + (-t * e) * d;
    ModAddMultiple(x, -t * e, d);
  }

  lemma DivDiv(x: nat, d: nat, e: nat)
    requires d > 0 && e > 0
    ensures x / d / e == x / (d * e)
  {
    var q1, r1 := x / d, x % d;
    var q2, r2 := q1 / e, q1 % e;
    MulLe(r2, e - 1, d);
    assert x == q2 * (d * e) + (r2 * d + r1);
    DivModUnique(x, d * e, q2, r2 * d + r1);
  }

  /** The remainder modulo 2p from the remainder of the halved value. */
  lemma ModOfDouble(x: nat, p: nat)
    requires p > 0
    ensures x % (2 * p) == 2 * ((x / 2) % p) + x % 2
  {
    var h, b := x / 2, x % 2;
    var q, r := h / p, h % p;
    assert x == 2 * h + b;
    assert h == q * p + r;
    assert x == q * (2 * p) + (2 * r + b);
    DivModUnique(x, 2 * p, q, 2 * r + b);
  }

  /** Mixed-radix digits: q * d + r with r < d and q < e lies below d * e. */
  lemma MixedRadixBound(q: nat, r: nat, d: nat, e: nat)
    requires r < d && q < e
    ensures q * d + r < d * e
  {
    MulLe(q, e - 1, d);
  }

  /** A value lies below d times any bound on its quotient by d. */
  lemma BelowNextMultiple(x: nat, d: nat, m: nat)
    requires d >= 1 && x / d < m
    ensures x < d * m
  {
    var q, r := x / d, x % d;
    MulLe(q + 1, m, d);
    assert (q + 1) * d == q * d + d;
    assert m * d == d * m;
  }

  lemma QuotientAtLeast(x: nat, d: nat, e: nat)
    requires d > 0 && x / d >= e
    ensures e * d <= x
  {
    MulLe(e, x / d, d);
  }

  /** And the quotient of a value below d * e is below e. */
  lemma QuotientBound(x: nat, d: nat, e: nat)
    requires d > 0 && x < d * e
    ensures x / d < e
  {
    if x / d >= e {
      MulLe(e, x / d, d);
    }
  }
}
