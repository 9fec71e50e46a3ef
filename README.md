# Dream Function spectral pipeline in Dafny

This project models the numeric core of `dream_function-1.cpp`, the
"spectral permanent calculator". Everything is computed over the prime
field of residues modulo Q = 998244353 = 119 * 2^23 + 1.

- **`mod_pow` and `mod_inv`** (`modarith.dfy`). `mod_pow` is the square-and-multiply loop, written as a method and proved equal to `base^exp mod m`. `mod_inv` is the Fermat inverse `a^(Q-2)`. Fermat's little theorem is proved for the bases 2 and 3 by replaying the 30-turn exponentiation loop on concrete values (`fermat.dfy`). Those two bases cover every residue the program inverts. `compute_permanent` calls `ntt` only forward (dream_function-1.cpp:126), so the pipeline itself inverts only the buffer length N (line 83). The inverse mode of `ntt` also inverts the buffer length (line 65) and the stage twiddles, which are powers of 3 (line 50).
- **`ntt`** (`bits.dfy`, `ntt.dfy`). `ntt` is an in-place radix-2 transform with three parts. The model keeps each one as an imperative method over an `array<int>`.
  - The incremental bit-reversal loop is proved to realise the bit-reversal permutation.
  - The butterfly stages run with twiddle `root^((Q-1)/len)`; the inverse uses `mod_inv` of it.
  - The inverse direction ends by scaling with `n^-1`.
  - For the root 3 the program passes and lengths up to 2^23 (the largest power of two dividing Q - 1), the transform is proved to evaluate the buffer's polynomial at the powers of the stage root (`polynomial.dfy`, `ntt_evaluation.dfy`). The inverse transform is proved to undo the forward one, and the forward one to undo the inverse one (`ntt_inverse.dfy`).
- **`fwht`** (`fwht.dfy`, `fwht_inverse.dfy`). `fwht` is the in-place Walsh-Hadamard transform, with the same optional scaling. Its forward head is proved to be the input's sum. The inverse transform is proved to undo the forward one.
- **`DreamFunction`** (`dream.dfy`). The class records the matrix, its dimension, the buffer length N and the exponent `k_opt`.
  - The constructor sizes N as the smallest power of two at or above `min(n*n, 16384)`.
  - `compute_permanent` runs its three phases on fresh arrays:
    1. Hash every row into N buckets, NTT the buckets, and multiply the result pointwise into `psi`.
    2. Raise every entry of `psi` to `k_opt`.
    3. Inverse-FWHT `psi` and return `psi[0]`.

Each in-place method is proved against a specification function of the buffer it starts from: `BitReversed`, `Butterflies`, `NttSpec`, `Hadamard`, `FwhtSpec`, `RowBuckets`, `Fused` or `Mutated`. The properties the program relies on are lemmas about those functions:
- every residue stays in [0, Q);
- the twiddles are primitive roots of unity;
- buckets hold sums of their entries;
- `psi` holds products of row spectra;
- the result is `N^-1` times the sum of the mutated spectrum.

## Model

| member | source | states |
|---|---|---|
| ModArith.ModPow | dream_function-1.cpp:22-31 | returns 1 when the exponent is not positive, and otherwise `base^exp mod m`, which lies in [0, m) |
| ModArith.PowLoop | dream_function-1.cpp:25-29 | the loop on running result `r`, base `b` and exponent `e`: once at least one turn runs (`e > 0`) the result lies in [0, m); `PowLoopIsPow` gives its value |
| ModArith.PowLoopIsPow | dream_function-1.cpp:25-29 | the loop keeps `result * base^exp (mod m)` fixed, so with running result `r` it ends with `r * b^e mod m` |
| ModArith.PowLoopStep | dream_function-1.cpp:26-28 | one turn of the loop (multiply on an odd exponent, square the base, halve the exponent) preserves `r * b^e mod m` |
| ModArith.ModInv | dream_function-1.cpp:33-35 | equals `mod_pow(a, mod - 2, mod)`, which is `a^(mod-2) mod mod` in [0, mod) for `mod >= 3` |
| Fermat.FermatForTwo | dream_function-1.cpp:33-35 | `2^(Q-1) = 1 (mod Q)` |
| Fermat.FermatForThree | dream_function-1.cpp:33-35 | `3^(Q-1) = 1 (mod Q)` |
| Fermat.EulerForThree | dream_function-1.cpp:49 | `3^((Q-1)/2) = Q - 1 (mod Q)`: 3 is not a square modulo Q |
| Fermat.InverseOfFermatPower | dream_function-1.cpp:33-35 | for `x` a power of 2 or of 3 reduced modulo Q, `x * mod_inv(x, Q) = 1 (mod Q)` |
| Fermat.SizeInverse | dream_function-1.cpp:65 | for a power of two `n < Q`, `n * mod_inv(n, Q) = 1 (mod Q)` |
| ModArith.ScaledByInverse | dream_function-1.cpp:64-67 | scaling residues by `c` and then by an inverse of `c` gives them back |
| ModArith.Scale | dream_function-1.cpp:64-67 | `x = (x * c) % Q` on every entry: the new buffer is the old one scaled by `c` |
| Bits.RevBound | dream_function-1.cpp:41-46 | the `bits`-bit reversal of a number lies below `2^bits` |
| Bits.RevInvolution | dream_function-1.cpp:41-46 | reversing the bits of a `bits`-bit number twice gives it back |
| Bits.ReversedSuccessorIsRev | dream_function-1.cpp:42-44 | clearing the set bits of `j` from the top and setting the first clear one turns the reversal of `m` into the reversal of `m + 1` |
| Ntt.RevIndex | dream_function-1.cpp:41-46 | the partner of `p` in a buffer of length `n` is the `log2 n`-bit reversal of `p` and lies below `n` |
| Ntt.ReversedIncrement | dream_function-1.cpp:42-44 | from `j` = reversal of `i - 1`, the inner loop produces the reversal of `i` |
| Ntt.Swap | dream_function-1.cpp:45 | exchanges `a[i]` and `a[j]`, changes no other entry, and keeps the multiset of entries |
| Ntt.BitReverseTurn | dream_function-1.cpp:42-45 | one turn of the `i` loop: returns the reversal of `i` from the reversal of `i - 1`, settles one more position of the bit-reversed order, and keeps the multiset of entries |
| Ntt.SwapTurn | dream_function-1.cpp:45 | swapping `a[i]` with `a[j]` only when `i < j` settles the pair `{i, j}` exactly once |
| Ntt.BitReverse | dream_function-1.cpp:41-46 | the buffer afterwards is the input read in bit-reversed order, and it has the same multiset of entries |
| Ntt.BitReversedInvolution | dream_function-1.cpp:41-46 | the bit-reversal reordering is its own inverse |
| Ntt.StageRoot | dream_function-1.cpp:49-50 | the twiddle `mod_pow(root, (Q-1)/len, Q)`, or its `mod_inv` for the inverse, is a residue in [0, Q); `Ntt.StageRootOfUnity` and `Ntt.StageRootInverse` give its root-of-unity properties |
| Ntt.TwiddleStep | dream_function-1.cpp:53-59 | the update `wn = (wn * w) % Q` keeps `wn = w^j mod Q` |
| Ntt.ButterflyBlock | dream_function-1.cpp:53-60 | in the block at `i`, entries `i + d` and `i + d + len/2` become `u + v` and `u - v`, where `v` is the second entry times `w^d`; the rest of the buffer is untouched |
| Ntt.ButterflyStage | dream_function-1.cpp:52-61 | one pass over all blocks of length `len` gives the stage `Butterflies(old, len, w)` |
| Ntt.RunStage | dream_function-1.cpp:49-61 | one stage computes the twiddle of block length `len` and leaves `Butterflies(old, len, StageRoot(root, len, inverse))` |
| Ntt.RunStages | dream_function-1.cpp:48-62 | the `len` loop from 2 up to `n` leaves `NttStages(old, 2, root, inverse)`, each stage applied once in doubling order |
| Ntt.Ntt | dream_function-1.cpp:37-68 | the buffer becomes `NttSpec` of the input: untouched for length 1, otherwise the stages on the bit-reversed input, then scaled by `n^-1` for the inverse; all entries stay residues |
| Ntt.NttOfSingleton | dream_function-1.cpp:39 | a buffer of length one is returned unchanged |
| Ntt.NttPreservesResidues | dream_function-1.cpp:48-67 | every entry stays in [0, Q) through the butterflies and the scaling |
| Ntt.StageExponent | dream_function-1.cpp:49 | for `len = 2^t` with `1 <= t <= 23`, `(Q-1)/len` is exact and at least 1 |
| Ntt.StageRootOfUnity | dream_function-1.cpp:49 | for root 3 the twiddle of block length `len` is a primitive `len`-th root of unity: `w^len = 1` and `w^(len/2) = -1 (mod Q)` |
| Ntt.StageRootInverse | dream_function-1.cpp:50 | the forward and inverse twiddles multiply to 1 modulo Q |
| Polynomial.EvalEvenOdd | dream_function-1.cpp:52-61 | a polynomial of even length splits by parity: `P(x) = E(x^2) + x * O(x^2)`, the identity each butterfly stage applies |
| Polynomial.EvalAppend | dream_function-1.cpp:52-61 | supporting identity of `NttEvaluation.TransformIsEval`, not a model of these lines: the coefficients of `v` in `u ++ v` count `|u|` degrees higher: `P(u ++ v, x) = P(u, x) + x^|u| * P(v, x)` |
| Polynomial.EvalTermsCongruent | dream_function-1.cpp:55-57 | supporting identity of `NttEvaluation.TransformIsEval`, not a model of these lines: two evaluations agree modulo Q when their terms agree degree by degree |
| NttEvaluation.RootSquare | dream_function-1.cpp:49-50 | the twiddle of block length `n/2` is the square of the twiddle of length `n`, modulo Q, in both directions |
| NttEvaluation.RootHalfPower | dream_function-1.cpp:49-50 | the twiddle of block length `n` raised to `n/2` is `-1` modulo Q, in both directions |
| NttEvaluation.BitReversedSplit | dream_function-1.cpp:41-46 | bit reversal puts the reversed even-indexed entries in the first half and the reversed odd-indexed ones in the second |
| NttEvaluation.NttStagesSplit | dream_function-1.cpp:48-62 | the stages of block length below `2|a|` act on `a` and `b` separately; then the stages from `2|a|` on follow |
| NttEvaluation.ButterfliesSplit | dream_function-1.cpp:52-61 | a stage whose blocks fit in each half acts on the two halves separately |
| NttEvaluation.TransformSplit | dream_function-1.cpp:41-62 | the transform of a buffer is the last stage applied to the transforms of its even-indexed and odd-indexed entries, side by side |
| NttEvaluation.LastStageCombines | dream_function-1.cpp:52-61 | on two transformed halves the last stage sets entry `k` to `e[k] + o[k] w^k` and entry `k + m` to `e[k] - o[k] w^k`, modulo Q |
| NttEvaluation.TransformCombines | dream_function-1.cpp:41-62 | the transform of a buffer is `Combine` of the transforms of its two halves with the full-length twiddle |
| NttEvaluation.CombineValues | dream_function-1.cpp:52-61 | combining the values of the even and odd parts at the squared points gives the values of the whole polynomial, when `w^(n/2) = -1` |
| NttEvaluation.TransformIsEval | dream_function-1.cpp:37-62 | for residues, root 3 and lengths up to 2^23, entry `k` after the butterfly stages on the bit-reversed buffer (before any scaling) is the buffer's polynomial at `w^k`, modulo Q, with `w` the twiddle of the full length |
| NttInverse.RootOfUnity | dream_function-1.cpp:49-50 | the full-length twiddle raised to `n` is 1 modulo Q |
| NttInverse.RootsInverse | dream_function-1.cpp:50 | the forward and inverse twiddles of length `n` multiply to 1 modulo Q |
| NttInverse.RootPowerSum | dream_function-1.cpp:49-50 | the sum of `(w^d)^k` over `k < n` is `n` for `d = 0` and 0 for `0 < d < n`, modulo Q |
| NttInverse.Orthogonality | dream_function-1.cpp:49-50 | the columns of the forward and inverse transform matrices are orthogonal: column `i` evaluated at inverse point `j` is `n` modulo Q if `i = j` and 0 modulo Q otherwise |
| NttInverse.PrefixInversion | dream_function-1.cpp:37-68 | the values of the first `i` coefficients, read at inverse point `j`, give `n * s[j]` when `j < i` and 0 otherwise, modulo Q |
| NttInverse.Inversion | dream_function-1.cpp:37-68 | for any buffer `s`, evaluating its values at the forward points as a polynomial at inverse point `j` gives `n * s[j]` modulo Q |
| NttInverse.ForwardIsEvaluation | dream_function-1.cpp:37-62 | the forward transform of residues is their polynomial evaluated at the powers of the forward twiddle |
| NttInverse.InverseIsEvaluation | dream_function-1.cpp:37-68 | the inverse transform is the evaluation at the powers of the inverse twiddle, scaled by `mod_inv(n, Q)` |
| NttInverse.NttRoundTrip | dream_function-1.cpp:37-68 | `ntt(ntt(a, false, 3), true, 3)` gives back every buffer of residues of power-of-two length up to 2^23 |
| NttInverse.InverseRoundTrip | dream_function-1.cpp:37-68 | `ntt(ntt(a, true, 3), false, 3)` gives back every buffer of residues of power-of-two length up to 2^23 |
| Fwht.HadamardBlock | dream_function-1.cpp:74-79 | in the block at `i`, entries `i + d` and `i + d + len` become `(u + v) % Q` and `(u - v + Q) % Q`; the rest is untouched |
| Fwht.HadamardStage | dream_function-1.cpp:73-80 | one pass over all blocks gives the stage `Hadamard(old, len)` |
| Fwht.Fwht | dream_function-1.cpp:70-86 | the buffer becomes `FwhtSpec` of the input: all entries are residues, and the inverse result is the forward result scaled by `mod_inv(n, Q)` |
| Fwht.HeadsStep | dream_function-1.cpp:73-80 | a stage merges the sums of two neighbouring blocks into the sum of the double block |
| Fwht.FwhtHeadIsSum | dream_function-1.cpp:70-81 | after the forward transform, entry 0 is the sum of the input modulo Q |
| FwhtInverse.HadamardSplits | dream_function-1.cpp:73-80 | a stage whose blocks fit in each half acts on the two halves separately |
| FwhtInverse.StagesSplit | dream_function-1.cpp:72-81 | the stages on two halves are the stages on each half followed by the stages of the full length |
| FwhtInverse.FwhtOfHalves | dream_function-1.cpp:72-81 | the forward transform of `a ++ b` is the entrywise sum, then the entrywise difference, of the transforms of `a` and `b` |
| FwhtInverse.FwhtLinear | dream_function-1.cpp:72-81 | the forward transform commutes with entrywise sums and differences modulo Q |
| FwhtInverse.FwhtTwice | dream_function-1.cpp:72-81 | applying the forward transform twice multiplies every residue by the length `n` |
| FwhtInverse.FwhtRoundTrip | dream_function-1.cpp:70-86 | on residues, the inverse transform undoes the forward transform (length a power of two below Q) |
| Dream.SizeBuffer | dream_function-1.cpp:98-100 | the doubling loop ends with the smallest power of two that is at least `min(n*n, 16384)` |
| Dream.BufferLengthIsSmallest | dream_function-1.cpp:98-100 | no power of two that reaches the target is smaller than N |
| Dream.BufferLengthUnique | dream_function-1.cpp:98-100 | only one length meets the sizing rule |
| Dream.BufferLengthBounds | dream_function-1.cpp:98-100 | `1 <= N <= 16384` (so N < Q), and `N = 1` when `n <= 1` |
| Dream.DreamFunction.constructor | dream_function-1.cpp:96-103 | stores the matrix and its dimension, sizes N by the rule, and takes `k_opt` (0 when `n <= 1`) |
| Dream.Bucket | dream_function-1.cpp:122 | the bucket index `((i*n + j) * 31) % N` lies in [0, N) |
| Dream.BucketFitsInt32 | dream_function-1.cpp:122 | for `i, j < n <= 8323` the expression `(i*n + j) * 31` stays within a signed 32-bit `int` |
| Dream.RowBucketsAreSums | dream_function-1.cpp:118-124 | every bucket holds, modulo Q, the sum of the row entries hashed into it |
| Dream.RowBucketsResidues | dream_function-1.cpp:123 | accumulating the non-negative entries keeps every bucket in [0, Q) |
| Dream.DreamFunction.HashRow | dream_function-1.cpp:118-124 | the bucket buffer of row `i` is `RowBuckets` of that row, a fresh array of residues |
| Dream.Fused | dream_function-1.cpp:115-131 | `psi` after `i` rows: N ones for `i = 0`, and the pointwise product of the row spectra after that; all entries residues |
| Dream.FusedIsProduct | dream_function-1.cpp:115-131 | `psi[f]` is the product over the integers of the rows' NTT values at `f`, reduced modulo Q |
| Dream.DreamFunction.Fuse | dream_function-1.cpp:115-131 | phase 1: a fresh `psi` that starts as N ones and, after every row is taken in, equals `Fused(M, n, N, n)`, the pointwise product of all row spectra modulo Q |
| Dream.DreamFunction.MultiplyInto | dream_function-1.cpp:128-130 | `psi[f] = (psi[f] * P[f]) % Q` for every `f` |
| Dream.DreamFunction.FuseRow | dream_function-1.cpp:117-131 | one row of phase 1 takes `psi` from the product of `i` spectra to the product of `i + 1` |
| Dream.DreamFunction.Mutate | dream_function-1.cpp:142-144 | every entry is replaced by `mod_pow(psi[f], k_opt, Q)` and nothing else changes |
| Dream.PermanentIsScaledSum | dream_function-1.cpp:142-160 | the result is `N^-1` times the sum of the mutated `psi`, modulo Q |
| Dream.ZeroExponentGivesOne | dream_function-1.cpp:142-160 | with `k_opt = 0` the pipeline returns 1 whatever the matrix |
| Dream.DreamFunction.ComputePermanent | dream_function-1.cpp:111-161 | returns `Permanent(M, n, N, k_opt)`, entry 0 of the inverse FWHT of the mutated product of row spectra; it lies in [0, Q) and is 1 when `n <= 1` |

## Left out

- `generate_random_matrix` and `main`: random matrix generation, argument parsing and banners are I/O and a library random number generator.
- The `cout` progress lines and the `high_resolution_clock` timers in the constructor and `compute_permanent`: output and clock readings never affect the result.
- The floating-point formula `k_opt = ceil(n * log2(N) * 1.2)`: the constructor takes `k_opt` as a non-negative parameter instead. It requires `k_opt = 0` when `n <= 1`, which is the formula's value there (`log2(1) = 0`).
- ModArith.ModPow: requires `base >= 0`. C++'s truncating `%` on a negative base is not modelled, and the pipeline never passes one.
- The 64-bit headroom of `long long` products: every product in the model has both operands in [0, Q), so it stays below (Q-1)^2 < 2^63. Integers are unbounded here and the bound is not restated.
- Dream.IsMatrix: matrix entries are unbounded non-negative integers, not `long long`. The bucket sum `P[idx] + M[i][j]` at dream_function-1.cpp:123 overflows in the source once an entry exceeds 2^63 - 1 - Q; the model does not capture that overflow.
- Dream.DreamFunction.constructor: requires `n <= 8323` instead of modelling the 32-bit `int` overflow that `n * n` and `(i*n + j) * 31` would reach for larger `n`.
- Negative matrix entries: the model requires entries `>= 0`, which keeps the buckets in [0, Q).
- Fermat's little theorem in general needs the primality of Q, which is not proved. Only the instances for the bases 2 and 3 are proved, and those are the ones `mod_inv` is applied to.
- NttInverse.NttRoundTrip and NttInverse.InverseRoundTrip: stated for the root 3 and for buffers of residues. Other roots are not covered, and neither are entries outside [0, Q).
- NttEvaluation.TransformIsEval: stated for lengths up to 2^23. Longer power-of-two buffers make `(Q-1)/len` inexact, and the source's behaviour there is not modelled as an evaluation.
- Ntt.Ntt and Fwht.Fwht: both require a power-of-two length; `compute_permanent` only ever calls them with one.
