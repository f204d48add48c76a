# perfect_rand: the Blackrock permutation, modelled and proved

The crate `perfect_rand` ports Masscan's Blackrock cipher to Rust. A
`PerfectRng` gives a keyed permutation of `[0, range)` without storing it.
`shuffle(i)` visits every value of the range exactly once as `i` runs over
the range, so a port scanner can walk its targets in random order.

The generator has four parts, and each one is modelled here:

- **Parameters.** `new` and `count_bits` choose two power-of-two
  half-domains `a` and `b`:
  - `a` is the first power of two above `sqrt(range)`;
  - `b` is the first power of two above `range / a`.

  The generator keeps the masks `a - 1` and `b - 1` and the width `a_bits`
  of `a`. Module `Params`; the `u64` operators it uses are in `Word`.
- **Round function.** `round` runs four SipHash `sipround`s over the state
  `(j, right, seed, 0xf3016d19bc9ad940)` and keeps the first word.
  Module `SipHash`, on `bv64`.
- **Feistel network.** `encrypt` splits `m` into `m & a_mask` and
  `m >> a_bits`. Odd rounds add the round value modulo `a`, even rounds
  modulo `b`, and the halves are joined back.
  - Module `Feistel` specifies the network for an arbitrary round
    function, and its inverse: the rounds undone in reverse order.
  - Module `Blackrock` holds `encrypt` as methods with the source's
    statements: `Split`, the loop body `EncryptRound` and the final
    `Join`. `EncryptWith` runs them for any round function with `u64`
    values and is proved equal to that specification; `Encrypt` runs it
    with `round`.
- **Cycle walking.** `shuffle` re-encrypts until the value falls below
  `range`.
  - Module `CycleWalk` proves the walk terminates and permutes, for any
    permutation of a finite superset.
  - `Blackrock.Shuffle` is the source's loop, proved to compute that walk.

Modules:

- `Arith`: powers of two, `log2`, and division facts.
- `Word`: `u64` as naturals below 2^64, with `&`, `>>`, `<<`,
  `wrapping_add`, `next_power_of_two` and the integer square root.

`new` accepts `range == 0` and builds `a = b = 1`; `Params.New` does the
same. No value can then be shuffled, because `Blackrock.Shuffle` requires
`m < range`.

## Model

| member | source | states |
|---|---|---|
| Params.CountBits | src/lib.rs:38-44 | the count of right shifts is floor(log2 num), below 64; for num >= 1 it is the r with 2^r <= num < 2^(r+1) |
| Params.ShiftOnceMore | src/lib.rs:40-41 | while more than one bit remains after shifting by k, one more shift stays below 64 and removes exactly one bit of log2 |
| Arith.FloorLog2OfPow2 | src/lib.rs:38-44 | count_bits of 2^k is k, which makes a_bits the width of a |
| Arith.FloorLog2Bounds | src/lib.rs:38-44 | 2^r <= n < 2^(r+1) for the r that count_bits computes, n >= 1 |
| Word.ISqrt | src/lib.rs:61 | the square root of range rounded down: r*r <= n < (r+1)*(r+1) |
| Word.NextPowerOfTwo | src/lib.rs:61-62 | `next_power_of_two` gives the least power of two that is at least n, and 1 for 0 |
| Params.HalfDomains | src/lib.rs:61-62 | a and b are powers of two below 2^64, b <= a, range < a*b <= 2^64, and a*b <= 2*range for range > 0 |
| Params.New | src/lib.rs:60-75 | the generator is well formed: a = 2^a_bits with a_bits < 64, b is a power of two, range < a*b <= 2^64; range, seed and rounds are stored unchanged |
| Params.NewBalanced | src/lib.rs:61-62 | b never exceeds a, and the superset a*b is at most twice a nonzero range |
| Params.FromRange | src/lib.rs:84-86 | a well-formed generator for the range, with three rounds |
| Word.BitAndLowMask | src/lib.rs:124 | `x & (2^k - 1)` is x modulo 2^k |
| Word.ShrIsDiv | src/lib.rs:125 | `x >> k`, modelled as `Div` by 2^k, is the integer quotient `x / 2^k` |
| Word.ShlIsMul | src/lib.rs:143-145 | `x << k` is x * 2^k when the product fits 64 bits |
| Word.MaskedWrappingAdd | src/lib.rs:130 | a wrapping 64-bit sum masked to k <= 64 bits equals the exact sum modulo 2^k |
| Blackrock.SplitIsMasked | src/lib.rs:124-125 | `m & a_mask` is m mod a and `m >> a_bits` is m / a |
| SipHash.SipRoundInverts | src/lib.rs:89-103 | SipRound is injective: the round run backwards undoes it on every state |
| SipHash.SipRoundInverseInverts | src/lib.rs:89-103 | every state is an output of SipRound, so SipRound permutes the 2^256 states |
| SipHash.SipRoundZero | src/lib.rs:89-103 | SipRound maps the all-zero state to itself, and no other state to it |
| SipHash.Start | src/lib.rs:107-112 | the state `round` starts from is never all zero, because of its constant fourth word |
| SipHash.RoundNeverZero | src/lib.rs:106-120 | none of the four states `round` passes through is all zero, for every seed, round number and right half |
| Feistel.StepFits | src/lib.rs:129-139 | after round j the left half is below the modulus of round j + 1 and the right half below that of round j |
| Feistel.ForwardFits | src/lib.rs:127-140 | from left < a, right < b, after n rounds left < b and right < a when n is odd, left < a and right < b when n is even |
| Feistel.UnstepStep | src/lib.rs:129-139 | subtracting F(j, left) modulo the half-size undoes round j |
| Feistel.StepUnstep | src/lib.rs:129-139 | round j undoes that subtraction, so every round permutes the pairs that fit it |
| Feistel.BackwardForward | src/lib.rs:127-140 | undoing rounds n down to 1 gives back the halves rounds 1 to n started from |
| Feistel.ForwardBackward | src/lib.rs:127-140 | running rounds 1 to n after undoing them gives back any halves that fit round n + 1 |
| Feistel.SplitFits | src/lib.rs:124-125 | the split of m < a*b has left < a and right < b, and joining the digits gives m back |
| Feistel.JoinFits | src/lib.rs:142-146 | the parity-dependent join of the final halves is below a*b, and splitting it the same way gives the halves back |
| Feistel.UnjoinFits | src/lib.rs:142-146 | every value below a*b is the join of halves that fit the last round |
| Feistel.DecryptEncrypt | src/lib.rs:123-147 | for any round function, encrypt maps [0, a*b) into itself and the inverse network undoes it |
| Feistel.EncryptDecrypt | src/lib.rs:123-147 | every value of [0, a*b) is an encryption: encrypt is onto the superset domain |
| Feistel.EncryptInjective | src/lib.rs:123-147 | two values of [0, a*b) with equal encryptions are equal |
| Feistel.EncryptZeroRounds | src/lib.rs:123-147 | with no rounds encrypt is the identity |
| Blackrock.RoundIsStep | src/lib.rs:129-139 | the masked wrapping sum of an odd round is the Feistel step modulo a, that of an even round the step modulo b |
| Blackrock.RoundFnAt | src/lib.rs:106-120 | on `u64` arguments the round function of the network is `round(j, right)` |
| Blackrock.Split | src/lib.rs:124-125 | `m & a_mask` and `m >> a_bits` are the Feistel split of m, with left < a and right < b |
| Blackrock.EncryptRound | src/lib.rs:129-139 | one pass of the loop turns the halves after round j - 1 into the halves after round j, and they fit round j + 1 |
| Blackrock.Join | src/lib.rs:142-146 | the shift-and-add on j = rounds + 1 is the Feistel join of the final halves, and its value is below a*b |
| Blackrock.EncryptWith | src/lib.rs:123-147 | for any round function with `u64` values, the split, the loop and the join compute the Feistel network, and the result is below a*b |
| Blackrock.Encrypt | src/lib.rs:123-147 | with the SipHash round function, encrypt computes the Feistel network, and the result is below a*b |
| Blackrock.CipherPermutes | src/lib.rs:123-147 | for every seed and round count, encrypt and its inverse are inverse permutations of [0, a*b) |
| CycleWalk.OrbitReturns | src/lib.rs:209-211 | iterating a permutation of [0, n) returns to the start within n steps |
| CycleWalk.FirstHit | src/lib.rs:208-212 | from x in range, the walk stops at the first iterate that is in range, within n steps |
| CycleWalk.WalkOn | src/lib.rs:209-211 | re-encrypting a value that is out of range keeps the loop on the walk, and fewer steps than the cycle length have been taken |
| CycleWalk.NextPermutes | src/lib.rs:207-213 | the walk of any permutation of a superset is a permutation of [0, range), undone by the walk of the inverse |
| CycleWalk.NextHitsEachOnce | src/lib.rs:230-244 | every value of [0, range) is the walk's result for exactly one start in [0, range) |
| Blackrock.CycleOfValue | src/lib.rs:264-274 | the cycle of a value under encrypt returns to it within a*b steps, so `shuffle` never gets stuck |
| Blackrock.Shuffle | src/lib.rs:207-213 | the loop terminates for every m < range and returns the first value after m on its cycle that is below range |
| Blackrock.ShufflePermutes | src/lib.rs:200-204 | shuffle maps [0, range) into itself, and the inverse walk undoes it in both orders |
| Blackrock.ShuffleHitsEachOnce | src/lib.rs:230-244 | shuffling every value of [0, range) reaches each value exactly once |
| Blackrock.ShuffleInjective | src/lib.rs:230-244 | two values of the range with the same shuffle are equal |
| Blackrock.ShuffleZeroRounds | src/lib.rs:207-213 | with no rounds, shuffle is the identity |

## Left out

- The floating-point square root of `new` (src/lib.rs:61) is the exact
  integer square root `Word.ISqrt`. The two agree while `range` is below
  2^52. For larger ranges `f64` rounding can choose a different `a`, and
  `b <= a` is proved only for the integer root.
- `rand::random()` in `from_range` is an external entropy source.
  `Params.FromRange` takes the seed as a parameter.
- The commented-out `decrypt` and `unshuffle` (src/lib.rs:149-193,
  215-221) are not modelled. The model proves its own inverses instead:
  `Feistel.Decrypt` and `Blackrock.UnshuffleOf`.
- The sum `left + round(j, right)` (src/lib.rs:130, 135) is the wrapping
  sum of a release build. In a debug build it panics when the sum exceeds
  2^64 - 1. After the mask, the wrapping sum is the exact sum modulo the
  half-size (`Word.MaskedWrappingAdd`).
- `usize` is taken to be 64 bits wide, so `rounds < 2^64`.
- Blackrock.Encrypt: requires `rounds < 2^64 - 1`. With
  `rounds == usize::MAX` the source's `j += 1` overflows before the loop
  can end.
- Blackrock.Encrypt: requires `m < a*b` and says nothing about larger `m`.
  `shuffle`, its only caller, passes only such values.
- Blackrock.EncryptWith: requires `rounds < 2^64 - 1` and `m < a*b`, for
  the same reasons as `Blackrock.Encrypt`.
- Blackrock.Shuffle: requires `m < range`, which the source never checks.
  For `m >= range`, including every `m` when `range == 0`, the source's
  loop may never end.
- The statistical quality of the mixing is not a provable property and is
  not modelled.
- The test harness and the benchmark are not modelled: the `ntest`
  timeouts, the `println!` calls and `benches/benchmark.rs`. What the
  tests assert is stated by `Blackrock.ShuffleHitsEachOnce` and
  `Blackrock.CycleOfValue`.
