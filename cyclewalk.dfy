/** Cycle walking, the technique `shuffle` (src/lib.rs) uses to turn a
    permutation E of a superset domain [0, n) into a permutation of a smaller
    domain [0, range): apply E again and again until the value falls back
    below range. Every orbit of a permutation of a finite set is a cycle, so
    starting from a value below range the walk comes back below range within
    n steps; walking the inverse permutation the same way undoes it. */
module CycleWalk {

  /** E applied k times. */
  function Iter(E: nat -> nat, k: nat, x: nat): nat
  {
    if k == 0 then x else E(Iter(E, k - 1, x))
  }

  /** E and D are inverse permutations of [0, n). */
  ghost predicate Inverses(E: nat -> nat, D: nat -> nat, n: nat)
  {
    && (forall x: nat :: x < n ==> E(x) < n && D(E(x)) == x)
    && (forall y: nat :: y < n ==> D(y) < n && E(D(y)) == y)
  }

  /** The walk: the first value from c on (c included) that is below range,
      giving up after `fuel` further steps. */
  function Walk(E: nat -> nat, range: nat, c: nat, fuel: nat): nat
    decreases fuel
  {
    if c < range || fuel == 0 then c else Walk(E, range, E(c), fuel - 1)
  }

  /** `shuffle` on top of E: the first value after x on its orbit that lies
      below range. n steps are always enough (FirstHit). */
  function Next(E: nat -> nat, n: nat, range: nat, x: nat): nat
  {
    Walk(E, range, E(x), n)
  }

  // ---------------------------------------------------------------------
  // Orbits

  lemma InversesSymmetric(E: nat -> nat, D: nat -> nat, n: nat)
    requires Inverses(E, D, n)
    ensures Inverses(D, E, n)
  {
  }

  lemma {:induction false} IterStays(E: nat -> nat, D: nat -> nat, n: nat, k: nat, x: nat)
    requires Inverses(E, D, n) && x < n
    ensures Iter(E, k, x) < n
  {
    if k > 0 {
      IterStays(E, D, n, k - 1, x);
    }
  }

  lemma {:induction false} IterShift(E: nat -> nat, k: nat, x: nat)
    ensures Iter(E, k, E(x)) == Iter(E, k + 1, x)
  {
    if k > 0 {
      IterShift(E, k - 1, x);
    }
  }

  /** Walking back t steps with D from the k-th iterate lands on the
      (k - t)-th. */
  lemma {:induction false} IterBack(E: nat -> nat, D: nat -> nat, n: nat, k: nat, t: nat, x: nat)
    requires Inverses(E, D, n) && x < n && t <= k
    ensures Iter(D, t, Iter(E, k, x)) == Iter(E, k - t, x)
  {
    if t > 0 {
      IterBack(E, D, n, k, t - 1, x);
      IterStays(E, D, n, k - t, x);
    }
  }

  /** Two equal iterates i <= j mean the orbit returns after j - i steps. */
  lemma IterCancel(E: nat -> nat, D: nat -> nat, n: nat, i: nat, j: nat, x: nat)
    requires Inverses(E, D, n) && x < n && i <= j
    requires Iter(E, i, x) == Iter(E, j, x)
    ensures Iter(E, j - i, x) == x
  {
    IterBack(E, D, n, i, i, x);
    IterBack(E, D, n, j, i, x);
  }

  /** n + 1 values below n are not all distinct. */
  lemma {:induction false} Pigeonhole(s: seq<nat>, n: nat) returns (i: nat, j: nat)
    requires n >= 1 && |s| == n + 1
    requires forall k :: 0 <= k < |s| ==> s[k] < n
    ensures i < j < |s| && s[i] == s[j]
    decreases n
  {
    if n == 1 {
      return 0, 1;
    }
    var last := s[n];
    if k :| 0 <= k < n && s[k] == last {
      return k, n;
    }
    // last occurs once: rename the value n - 1 to last and drop the end.
    var t := seq(n, k requires 0 <= k < n => if s[k] == n - 1 then last else s[k]);
    i, j := Pigeonhole(t, n - 1);
  }

  /** Every orbit of a permutation of [0, n) is a cycle of length at most
      n. */
  lemma OrbitReturns(E: nat -> nat, D: nat -> nat, n: nat, x: nat) returns (K: nat)
    requires Inverses(E, D, n) && x < n
    ensures 1 <= K <= n && Iter(E, K, x) == x
  {
    var s := seq(n + 1, k requires 0 <= k <= n => Iter(E, k, x));
    forall k | 0 <= k < |s|
      ensures s[k] < n
    {
      IterStays(E, D, n, k, x);
    }
    var i, j := Pigeonhole(s, n);
    IterCancel(E, D, n, i, j, x);
    K := j - i;
  }

  // ---------------------------------------------------------------------
  // The walk

  /** Among the iterates 1 to K of x, with the K-th below range, there is a
      first one below range. */
  lemma {:induction false} FirstBelow(E: nat -> nat, range: nat, x: nat, K: nat) returns (k: nat)
    requires K >= 1 && Iter(E, K, x) < range
    decreases K
    ensures 1 <= k <= K && Iter(E, k, x) < range
    ensures forall t :: 1 <= t < k ==> Iter(E, t, x) >= range
  {
    if t :| 1 <= t < K && Iter(E, t, x) < range {
      k := FirstBelow(E, range, x, t);
    } else {
      k := K;
    }
  }

  /** With enough fuel, the walk from c stops at the first iterate of c
      below range. */
  lemma {:induction false} WalkStopsAtFirst(E: nat -> nat, range: nat, c: nat, k: nat, fuel: nat)
    requires k <= fuel && Iter(E, k, c) < range
    requires forall t :: 0 <= t < k ==> Iter(E, t, c) >= range
    ensures Walk(E, range, c, fuel) == Iter(E, k, c)
    decreases k
  {
    if k > 0 {
      assert Iter(E, 0, c) >= range;
      forall t | 0 <= t < k - 1
        ensures Iter(E, t, E(c)) >= range
      {
        IterShift(E, t, c);
      }
      IterShift(E, k - 1, c);
      WalkStopsAtFirst(E, range, E(c), k - 1, fuel - 1);
    }
  }

  /** Starting below range, the walk ends at the first iterate k >= 1 of x
      that is below range, and k <= n. */
  lemma FirstHit(E: nat -> nat, D: nat -> nat, n: nat, range: nat, x: nat) returns (k: nat)
    requires Inverses(E, D, n) && x < range <= n
    ensures 1 <= k <= n && Iter(E, k, x) < range
    ensures forall t :: 1 <= t < k ==> Iter(E, t, x) >= range
    ensures Next(E, n, range, x) == Iter(E, k, x)
  {
    var K := OrbitReturns(E, D, n, x);
    k := FirstBelow(E, range, x, K);
    forall t | 0 <= t < k - 1
      ensures Iter(E, t, E(x)) >= range
    {
      IterShift(E, t, x);
    }
    IterShift(E, k - 1, x);
    WalkStopsAtFirst(E, range, E(x), k - 1, n);
  }

  /** The state of a loop computing Next(E, n, range, x) step by step: c is
      the i-th iterate of x, and the walk from c, with the fuel left after i
      steps, ends where the walk from x does. */
  ghost predicate OnWalk(E: nat -> nat, n: nat, range: nat, x: nat, i: nat, c: nat)
  {
    1 <= i <= n + 1 && c == Iter(E, i, x) && Walk(E, range, c, n + 1 - i) == Next(E, n, range, x)
  }

  /** The loop starts from the first iterate. */
  lemma WalkStart(E: nat -> nat, n: nat, range: nat, x: nat, c: nat)
    requires c == E(x)
    ensures OnWalk(E, n, range, x, 1, c)
  {
  }

  /** One more step while the value is out of range keeps the loop state.
      The value is not back at x, which is in range and whose cycle has
      length K <= n, so fewer than K steps have been taken. */
  lemma WalkOn(E: nat -> nat, n: nat, range: nat, x: nat, K: nat, i: nat, c: nat, c': nat)
    requires x < range && K <= n && Iter(E, K, x) == x && i <= K
    requires OnWalk(E, n, range, x, i, c) && c >= range && c' == E(c)
    ensures i < K && OnWalk(E, n, range, x, i + 1, c')
  {
  }

  /** Once the value is in range, it is the walk's result. */
  lemma WalkDone(E: nat -> nat, n: nat, range: nat, x: nat, i: nat, c: nat)
    requires OnWalk(E, n, range, x, i, c) && c < range
    ensures c == Next(E, n, range, x)
  {
  }

  /** The walk keeps [0, range) closed. */
  lemma NextInRange(E: nat -> nat, D: nat -> nat, n: nat, range: nat, x: nat)
    requires Inverses(E, D, n) && x < range <= n
    ensures Next(E, n, range, x) < range
  {
    var k := FirstHit(E, D, n, range, x);
  }

  /** Walking D undoes walking E: the values E skipped over are the ones D
      skips over on the way back. */
  lemma NextUndone(E: nat -> nat, D: nat -> nat, n: nat, range: nat, x: nat)
    requires Inverses(E, D, n) && x < range <= n
    ensures Next(D, n, range, Next(E, n, range, x)) == x
  {
    var k := FirstHit(E, D, n, range, x);
    var y := Iter(E, k, x);
    forall t | 0 <= t < k - 1
      ensures Iter(D, t, D(y)) >= range
    {
      IterShift(D, t, y);
      IterBack(E, D, n, k, t + 1, x);
    }
    IterShift(D, k - 1, y);
    IterBack(E, D, n, k, k, x);
    WalkStopsAtFirst(D, range, D(y), k - 1, n);
  }

  /** The walk is a permutation of [0, range): it stays in the domain, and
      the walk on the inverse permutation undoes it in both orders. */
  lemma NextPermutes(E: nat -> nat, D: nat -> nat, n: nat, range: nat)
    requires Inverses(E, D, n) && range <= n
    ensures forall x: nat :: x < range ==> Next(E, n, range, x) < range
    ensures forall x: nat :: x < range ==> Next(D, n, range, Next(E, n, range, x)) == x
    ensures forall y: nat :: y < range ==> Next(E, n, range, Next(D, n, range, y)) == y
  {
    InversesSymmetric(E, D, n);
    forall x: nat | x < range
      ensures Next(E, n, range, x) < range
      ensures Next(D, n, range, Next(E, n, range, x)) == x
      ensures Next(E, n, range, Next(D, n, range, x)) == x
    {
      NextInRange(E, D, n, range, x);
      NextUndone(E, D, n, range, x);
      NextUndone(D, E, n, range, x);
    }
  }

  /** Each value of [0, range) is reached by the walk from exactly one
      value of [0, range): the one the inverse walk leads to. */
  lemma NextHitsEachOnce(E: nat -> nat, D: nat -> nat, n: nat, range: nat, y: nat)
    requires Inverses(E, D, n) && y < range <= n
    ensures (set x: nat | x < range && Next(E, n, range, x) == y) == {Next(D, n, range, y)}
  {
    NextPermutes(E, D, n, range);
    InversesSymmetric(E, D, n);
    NextInRange(D, E, n, range, y);
  }
}
