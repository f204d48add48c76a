/** The unbalanced Feistel network of `encrypt` (src/lib.rs), over an
    arbitrary round function F. A value m < a * b is split into a left half
    m % a and a right half m / a; round j adds F(j, right) to the left half
    modulo a when j is odd and modulo b when j is even, then swaps the
    halves; the two halves are joined back in an order that depends on the
    parity of the round count. Each round can be undone by subtracting
    F(j, left) modulo the same half-size, which gives Decrypt and makes
    Encrypt a permutation of [0, a * b) whatever F returns. */
module Feistel {
  import opened Arith

  /** The round function: round number and right half to a word. */
  type RoundFunction = (nat, nat) -> nat

  datatype Halves = Halves(left: nat, right: nat)

  /** The half-size round j reduces modulo: a for odd rounds, b for even
      ones. */
  function Modulus(a: nat, b: nat, j: nat): nat
  {
    if j % 2 == 1 then a else b
  }

  /** The half widths before round j: the left half is below the modulus of
      round j, the right half below that of round j + 1. */
  predicate Fits(a: nat, b: nat, j: nat, h: Halves)
  {
    h.left < Modulus(a, b, j) && h.right < Modulus(a, b, j + 1)
  }

  // Products, quotients and remainders by the half-sizes are written with
  // Mul, Div and Mod, which the solver only unfolds on demand; the lemmas
  // below relate them to `*`, `/` and `%` where a proof needs it.

  /** Round j: the masked sum becomes the new right half, the old right
      half the new left half. */
  function Step(F: RoundFunction, a: nat, b: nat, j: nat, h: Halves): Halves
    requires a >= 1 && b >= 1
  {
    Halves(h.right, Mod(h.left + F(j, h.right), Modulus(a, b, j)))
  }

  /** Round j undone: F(j, left) subtracted modulo the half-size, by adding
      its complement. */
  function Unstep(F: RoundFunction, a: nat, b: nat, j: nat, h: Halves): Halves
    requires a >= 1 && b >= 1
  {
    var m := Modulus(a, b, j);
    Halves(Mod(h.right + (m - Mod(F(j, h.left), m)), m), h.left)
  }

  /** Rounds 1 to n, in that order. */
  function Forward(F: RoundFunction, a: nat, b: nat, n: nat, h: Halves): Halves
    requires a >= 1 && b >= 1
  {
    if n == 0 then h else Step(F, a, b, n, Forward(F, a, b, n - 1, h))
  }

  /** Rounds n down to 1 undone. */
  function Backward(F: RoundFunction, a: nat, b: nat, n: nat, h: Halves): Halves
    requires a >= 1 && b >= 1
  {
    if n == 0 then h else Backward(F, a, b, n - 1, Unstep(F, a, b, n, h))
  }

  /** `m & a_mask` and `m >> a_bits`. */
  function Split(a: nat, m: nat): Halves
    requires a >= 1
  {
    Halves(Mod(m, a), Div(m, a))
  }

  function Unsplit(a: nat, h: Halves): nat
  {
    Mul(h.right, a) + h.left
  }

  function Swap(h: Halves): Halves
  {
    Halves(h.right, h.left)
  }

  /** The final recombination: after an odd number of rounds the left half
      is the high digit, after an even number the right half is. */
  function Join(a: nat, rounds: nat, h: Halves): nat
  {
    if rounds % 2 == 1 then Unsplit(a, Swap(h)) else Unsplit(a, h)
  }

  function Unjoin(a: nat, rounds: nat, c: nat): Halves
    requires a >= 1
  {
    if rounds % 2 == 1 then Swap(Split(a, c)) else Split(a, c)
  }

  /** `encrypt`. */
  function Encrypt(F: RoundFunction, a: nat, b: nat, rounds: nat, m: nat): nat
    requires a >= 1 && b >= 1
  {
    Join(a, rounds, Forward(F, a, b, rounds, Split(a, m)))
  }

  /** The inverse of `encrypt`. */
  function Decrypt(F: RoundFunction, a: nat, b: nat, rounds: nat, c: nat): nat
    requires a >= 1 && b >= 1
  {
    Unsplit(a, Backward(F, a, b, rounds, Unjoin(a, rounds, c)))
  }

  // ---------------------------------------------------------------------
  // One round

  /** After round j the halves fit round j + 1: the old right half becomes
      the left one, and the masked sum is below the modulus of round j,
      which is also that of round j + 2. */
  lemma StepFits(F: RoundFunction, a: nat, b: nat, j: nat, h: Halves)
    requires a >= 1 && b >= 1 && Fits(a, b, j, h)
    ensures Fits(a, b, j + 1, Step(F, a, b, j, h))
  {
    assert Modulus(a, b, j + 2) == Modulus(a, b, j);
  }

  lemma UnstepFits(F: RoundFunction, a: nat, b: nat, j: nat, h: Halves)
    requires a >= 1 && b >= 1 && Fits(a, b, j + 1, h)
    ensures Fits(a, b, j, Unstep(F, a, b, j, h))
  {
  }

  lemma UnstepStep(F: RoundFunction, a: nat, b: nat, j: nat, h: Halves)
    requires a >= 1 && b >= 1 && Fits(a, b, j, h)
    ensures Unstep(F, a, b, j, Step(F, a, b, j, h)) == h
  {
    SubtractModAfterAdd(h.left, F(j, h.right), Modulus(a, b, j));
  }

  lemma StepUnstep(F: RoundFunction, a: nat, b: nat, j: nat, h: Halves)
    requires a >= 1 && b >= 1 && Fits(a, b, j + 1, h)
    ensures Step(F, a, b, j, Unstep(F, a, b, j, h)) == h
  {
    var m := Modulus(a, b, j);
    assert h.right < m by {
      assert Modulus(a, b, j + 2) == m;
    }
    AddModAfterSubtract(h.right, F(j, h.left), m);
  }

  /** SubtractAfterAdd with Mod. */
  lemma SubtractModAfterAdd(x: nat, f: nat, m: nat)
    requires x < m
    ensures Mod(Mod(x + f, m) + (m - Mod(f, m)), m) == x
  {
    ModIsRemainder(x + f, m);
    ModIsRemainder(f, m);
    ModIsRemainder((x + f) % m + (m - f % m), m);
    SubtractAfterAdd(x, f, m);
  }

  /** AddAfterSubtract with Mod. */
  lemma AddModAfterSubtract(x: nat, g: nat, m: nat)
    requires x < m
    ensures Mod(Mod(x + (m - Mod(g, m)), m) + g, m) == x
  {
    ModIsRemainder(g, m);
    var y := x + (m - g % m);
    ModIsRemainder(y, m);
    ModIsRemainder(y % m + g, m);
    AddAfterSubtract(x, g, m);
  }

  /** Adding f and then the complement of f modulo m cancels out. */
  lemma SubtractAfterAdd(x: nat, f: nat, m: nat)
    requires x < m
    ensures ((x + f) % m + (m - f % m)) % m == x
  {
    var q1, q2 := (x + f) / m, f / m;
    assert (x + f) % m + (m - f % m) == x + (1 + q2 - q1) * m;
    ModAddMultiple(x, 1 + q2 - q1, m);
    ModSmall(x, m);
  }

  /** Adding the complement of f modulo m and then f cancels out. */
  lemma AddAfterSubtract(x: nat, f: nat, m: nat)
    requires x < m
    ensures ((x + (m - f % m)) % m + f) % m == x
  {
    ModSum(x + (m - f % m), f, m);
    assert x + (m - f % m) + f == x + (1 + f / m) * m;
    ModAddMultiple(x, 1 + f / m, m);
    ModSmall(x, m);
  }

  // ---------------------------------------------------------------------
  // All rounds

  /** The half widths after each round: with left < a and right < b after
      the split, after n rounds left < b and right < a when n is odd, and
      left < a and right < b when n is even. */
  lemma {:induction false} ForwardFits(F: RoundFunction, a: nat, b: nat, n: nat, h: Halves)
    requires a >= 1 && b >= 1 && Fits(a, b, 1, h)
    ensures Fits(a, b, n + 1, Forward(F, a, b, n, h))
  {
    if n > 0 {
      ForwardFits(F, a, b, n - 1, h);
      StepFits(F, a, b, n, Forward(F, a, b, n - 1, h));
    }
  }

  lemma {:induction false} BackwardFits(F: RoundFunction, a: nat, b: nat, n: nat, h: Halves)
    requires a >= 1 && b >= 1 && Fits(a, b, n + 1, h)
    ensures Fits(a, b, 1, Backward(F, a, b, n, h))
  {
    if n > 0 {
      UnstepFits(F, a, b, n, h);
      BackwardFits(F, a, b, n - 1, Unstep(F, a, b, n, h));
    }
  }

  lemma {:induction false} BackwardForward(F: RoundFunction, a: nat, b: nat, n: nat, h: Halves)
    requires a >= 1 && b >= 1 && Fits(a, b, 1, h)
    ensures Backward(F, a, b, n, Forward(F, a, b, n, h)) == h
  {
    if n > 0 {
      var g := Forward(F, a, b, n - 1, h);
      ForwardFits(F, a, b, n - 1, h);
      UnstepStep(F, a, b, n, g);
      BackwardForward(F, a, b, n - 1, h);
    }
  }

  lemma {:induction false} ForwardBackward(F: RoundFunction, a: nat, b: nat, n: nat, h: Halves)
    requires a >= 1 && b >= 1 && Fits(a, b, n + 1, h)
    ensures Forward(F, a, b, n, Backward(F, a, b, n, h)) == h
  {
    if n > 0 {
      var g := Unstep(F, a, b, n, h);
      UnstepFits(F, a, b, n, h);
      ForwardBackward(F, a, b, n - 1, g);
      StepUnstep(F, a, b, n, h);
    }
  }

  // ---------------------------------------------------------------------
  // Split and join

  /** Splitting and undoing the split gives any value back. */
  lemma UnsplitSplit(a: nat, m: nat)
    requires a >= 1
    ensures Unsplit(a, Split(a, m)) == m
  {
    DivIsQuotient(m, a);
    ModIsRemainder(m, a);
    MulIsProduct(m / a, a);
  }

  /** The two digits of c < a * b in radix a fit the half-domains. */
  lemma Digits(a: nat, b: nat, c: nat)
    requires a >= 1 && b >= 1 && c < Mul(a, b)
    ensures Mod(c, a) < a && Div(c, a) < b
  {
    MulIsProduct(a, b);
    DivIsQuotient(c, a);
    QuotientBound(c, a, b);
  }

  /** Two digits in radix a, the high one below b, make a value below a * b
      whose digits they are. */
  lemma Undigits(a: nat, b: nat, hi: nat, lo: nat)
    requires a >= 1 && b >= 1 && lo < a && hi < b
    ensures Mul(hi, a) + lo < Mul(a, b)
    ensures Div(Mul(hi, a) + lo, a) == hi && Mod(Mul(hi, a) + lo, a) == lo
  {
    MulIsProduct(a, b);
    MulIsProduct(hi, a);
    MixedRadixBound(hi, lo, a, b);
    DivModUnique(hi * a + lo, a, hi, lo);
    DivIsQuotient(hi * a + lo, a);
    ModIsRemainder(hi * a + lo, a);
  }

  /** The split of m < a * b fits round 1, and undoing it gives m back. */
  lemma SplitFits(a: nat, b: nat, m: nat)
    requires a >= 1 && b >= 1 && m < Mul(a, b)
    ensures Fits(a, b, 1, Split(a, m))
    ensures Unsplit(a, Split(a, m)) == m
  {
    Digits(a, b, m);
    UnsplitSplit(a, m);
  }

  lemma UnsplitFits(a: nat, b: nat, h: Halves)
    requires a >= 1 && b >= 1 && Fits(a, b, 1, h)
    ensures Unsplit(a, h) < Mul(a, b)
    ensures Split(a, Unsplit(a, h)) == h
  {
    Undigits(a, b, h.right, h.left);
  }

  /** After the last round the joined value is below a * b, and splitting it
      the same way gives the halves back. */
  lemma JoinFits(a: nat, b: nat, rounds: nat, h: Halves)
    requires a >= 1 && b >= 1 && Fits(a, b, rounds + 1, h)
    ensures Join(a, rounds, h) < Mul(a, b)
    ensures Unjoin(a, rounds, Join(a, rounds, h)) == h
  {
    if rounds % 2 == 1 {
      assert (rounds + 1) % 2 == 0 && (rounds + 2) % 2 == 1;
      UnsplitFits(a, b, Swap(h));
    } else {
      assert (rounds + 1) % 2 == 1 && (rounds + 2) % 2 == 0;
      UnsplitFits(a, b, h);
    }
  }

  lemma UnjoinFits(a: nat, b: nat, rounds: nat, c: nat)
    requires a >= 1 && b >= 1 && c < Mul(a, b)
    ensures Fits(a, b, rounds + 1, Unjoin(a, rounds, c))
    ensures Join(a, rounds, Unjoin(a, rounds, c)) == c
  {
    SplitFits(a, b, c);
    if rounds % 2 == 1 {
      assert (rounds + 1) % 2 == 0 && (rounds + 2) % 2 == 1;
    } else {
      assert (rounds + 1) % 2 == 1 && (rounds + 2) % 2 == 0;
    }
  }

  // ---------------------------------------------------------------------
  // The whole cipher

  /** `encrypt` maps [0, a * b) into itself, and Decrypt undoes it. */
  lemma DecryptEncrypt(F: RoundFunction, a: nat, b: nat, rounds: nat, m: nat)
    requires a >= 1 && b >= 1 && m < Mul(a, b)
    ensures Encrypt(F, a, b, rounds, m) < Mul(a, b)
    ensures Decrypt(F, a, b, rounds, Encrypt(F, a, b, rounds, m)) == m
  {
    var h := Split(a, m);
    SplitFits(a, b, m);
    var g := Forward(F, a, b, rounds, h);
    ForwardFits(F, a, b, rounds, h);
    JoinFits(a, b, rounds, g);
    BackwardForward(F, a, b, rounds, h);
  }

  /** Decrypt maps [0, a * b) into itself, and `encrypt` undoes it: every
      value of the domain is an output of `encrypt`. */
  lemma EncryptDecrypt(F: RoundFunction, a: nat, b: nat, rounds: nat, c: nat)
    requires a >= 1 && b >= 1 && c < Mul(a, b)
    ensures Decrypt(F, a, b, rounds, c) < Mul(a, b)
    ensures Encrypt(F, a, b, rounds, Decrypt(F, a, b, rounds, c)) == c
  {
    var g := Unjoin(a, rounds, c);
    UnjoinFits(a, b, rounds, c);
    var h := Backward(F, a, b, rounds, g);
    BackwardFits(F, a, b, rounds, g);
    UnsplitFits(a, b, h);
    ForwardBackward(F, a, b, rounds, g);
  }

  /** `encrypt` is injective on [0, a * b), whatever the round function. */
  lemma EncryptInjective(F: RoundFunction, a: nat, b: nat, rounds: nat, m1: nat, m2: nat)
    requires a >= 1 && b >= 1 && m1 < Mul(a, b) && m2 < Mul(a, b)
    requires Encrypt(F, a, b, rounds, m1) == Encrypt(F, a, b, rounds, m2)
    ensures m1 == m2
  {
    DecryptEncrypt(F, a, b, rounds, m1);
    DecryptEncrypt(F, a, b, rounds, m2);
  }

  /** With no rounds, `encrypt` splits and joins back: the identity. */
  lemma EncryptZeroRounds(F: RoundFunction, a: nat, b: nat, m: nat)
    requires a >= 1 && b >= 1
    ensures Encrypt(F, a, b, 0, m) == m
  {
    UnsplitSplit(a, m);
  }
}
