# Dual_EC_DRBG backdoor demonstration, modelled in Dafny

The modelled repository demonstrates the Dual_EC_DRBG backdoor, a
simplified form of the generate step of NIST SP 800-90A (2012),
section 10.3.1. A generator holds a seed s and two curve points P and Q. Each
`generate` call does three things:

- it computes r = x(s·P);
- it stores x(r·P) as the new seed;
- it outputs x(r·Q) with some bits truncated.

Suppose the observer knows e with e·Q = P. It can then enumerate the
missing bits of one output, rebuild the point r·Q (up to sign), and
multiply it by e. That gives x(r·P), which is the generator's next seed.

The project models the repository's scripts module by module:

| module | file | models |
|---|---|---|
| `PyInt` | pyint.dfy | Python's floor `//` and `%`, `int.bit_length`, `<<`, `>>`, bitwise or and masking on unbounded integers |
| `Field` | field.dfy | `extended_gcd`, `mod_inverse`, three-argument `pow`, `square_root_exists`, `square_root_mod_p` |
| `Curve` | curve.dfy | the curve right-hand side (`__call__`), the library's on-curve check, and an affine point model |
| `Truncation` | truncation.dfy | the fixed-width `truncate` and the bit-length-relative `truncate` |
| `Generator` | generator.dfy | the `generate` step that all four generator classes share |
| `Attack` | attack.dfy | the loop body of both `find_possible_seeds` functions |
| `DualEcBackdoor` | dual_ec_backdoor.dfy | src/dual_ec_backdoor.py: class `MyEC` and the verified seed search |
| `P256`, `DualEcDrbgBackdoor` | p256.dfy, dual_ec_drbg_backdoor.dfy | src/dual_ec_drbg_backdoor.py: class `DualECDRBG` and the unverified seed search |
| `SmallCurveGenerator` | small_curve_generator.dfy | src/test.py |
| `DualEcDrbg` | dual_ec_drbg.dfy | src/dual_ec_drbg.py |
| `EcOrder` | ec_order.dfy | src/ec.py: point counting and point order |
| `EcDlp` | ec_dlp.dfy | src/ec_dlp.py: brute-force discrete logarithm and the prime lister |

Some helpers are copied word for word across scripts:

- `extended_gcd`, `mod_inverse`, `square_root_exists` and `square_root_mod_p` appear in src/dual_ec_backdoor.py, src/dual_ec_drbg_backdoor.py and src/ec.py. `square_root_mod_p` also appears in src/test.py.
- The fixed-width `truncate` appears in two scripts, and the relative one in two others.
- `generate` has the same step in every generator class.

Each of these is defined once, and each class calls the shared definition.

Exceptions and `None` values are modelled as `Option.None`.

- A `generate` call raises when:
  - P or Q was never set;
  - s·P is the point at infinity, so `r` is `None`;
  - `truncate` is given `None`.
- Both truncation rules raise when the mask exponent `2 ** k` has a negative k.
- `square_root_mod_p` raises when either of its assertions fails.
- `mod_inverse` raises when the gcd is not 1.
- `Point(curve, x, y)` raises when (x, y) is off the curve. The `set_P`/`set_Q` methods return that check as `ok`.

The stored seed has type `Option<int>`, because `(r * P).x()` of the point at infinity is `None` and is stored as the seed.

The truncation width is a parameter of the generator methods and the
searches. In src/dual_ec_backdoor.py it is instead the module-level
entry `ec_params["trunc"]`, which `main` reassigns.

## Model

| member | source | states |
|---|---|---|
| PyInt.FloorMod | src/dual_ec_backdoor.py:63 | Python's `a % b` lies in [0, b) for b > 0 and in (b, 0] for b < 0 |
| PyInt.FloorDivMod | src/dual_ec_backdoor.py:63-65 | Python's `a // b` and `a % b` recombine: (a // b)·b + a % b = a, for either sign of b |
| PyInt.BitLength | src/dual_ec_backdoor.py:45 | `int.bit_length` is at least 1 for any non-zero integer |
| PyInt.NatBitLengthBound | src/dual_ec_backdoor.py:45 | for x ≥ 0, bit_length(x) ≤ k exactly when x < 2^k |
| PyInt.BitLengthBound | src/dual_ec_backdoor.py:45 | bit_length(x) ≤ k exactly when abs(x) < 2^k, for negative x too |
| PyInt.BitLengthTop | src/dual_ec_backdoor.py:45 | a non-zero x has abs(x) ≥ 2^(bit_length(x) − 1) |
| PyInt.LowBits | src/dual_ec_backdoor.py:47 | `x & (2**k − 1)` lies in [0, 2^k) and differs from x by a multiple of 2^k, for negative x too |
| PyInt.OrShiftedLow | src/dual_ec_backdoor.py:77 | the bitwise or of i << s and low equals (i << s) + low whenever 0 ≤ low < 2^s (the two have no bit in common) |
| Field.ExtendedGcd | src/dual_ec_backdoor.py:60-66 | `extended_gcd(a, b)` = (g, x, y) with a·x + b·y = g; g divides a and b; g ≥ 0 for a, b ≥ 0 and g > 0 for b > 0; the recursion ends because abs(a % b) < abs(b) |
| Field.ExtendedGcdIsGcd | src/dual_ec_backdoor.py:60-66 | the g returned is a greatest common divisor: every common divisor of a and b divides it |
| Field.ModInverse | src/dual_ec_backdoor.py:68-72 | `mod_inverse(d, n)` raises (None) when the gcd is not 1 or n = 0. Otherwise it returns v with n dividing d·v − 1, in [0, n) for n > 0 and in (n, 0] for n < 0. For n > 0 it succeeds exactly when d and n are coprime |
| Field.ModPow | src/dual_ec_backdoor.py:53 | three-argument `pow(b, e, m)` lies in [0, m) |
| Field.SqrtModP | src/dual_ec_backdoor.py:55-58 | `square_root_mod_p(z, p)` succeeds exactly when p + 1 ≡ 0 (mod 4) and z passes Euler's criterion. Its result y then lies in [0, p) and y² ≡ z (mod p) |
| Field.MultipleNotResidue | src/dual_ec_drbg_backdoor.py:53-54 | `square_root_exists(z, p)` is false for every multiple z of p once p ≥ 3, in particular for 0 |
| Curve.Evaluate | src/dual_ec_backdoor.py:49-50 | `__call__(x)` lies in [0, p) and is congruent to x³ + a·x + b mod p; this is also the `__call__` of src/ec.py:34-35, src/test.py:37-38 and src/dual_ec_drbg_backdoor.py:49-50 |
| Curve.OnCurveIff | src/dual_ec_backdoor.py:27-28 | the point check made by `Point(curve, x, y)` holds exactly when y² mod p = `__call__(x)` |
| Curve.RootGivesPoint | src/dual_ec_backdoor.py:81-83 | the root returned by `square_root_mod_p(__call__(x), p)` makes (x, y) a point on the curve, so `Point(ec_curve.curve, x, y)` never raises |
| Curve.X | src/dual_ec_backdoor.py:37-38 | `.x()` is None exactly for the point at infinity |
| Curve.MultiplesRepeat | src/ec_dlp.py:14-15 | once n·P = P for some n ≥ 2, (n + t)·P = (1 + t)·P for every t |
| Curve.MultiplesInCycle | src/ec_dlp.py:14-15 | once n·P = P for some n ≥ 2, every positive multiple of P equals one of 1·P … (n − 1)·P |
| Truncation.TruncateFixed | src/dual_ec_backdoor.py:44-47 | fixed-width `truncate(x, n)` returns 0 when bit_length(x) ≤ n (in particular when abs(x) < 2^n). It raises exactly when n > l and bit_length(x) > n. Otherwise it returns x mod 2^(l − n), in [0, 2^(l − n)) |
| Truncation.TruncateFixedBound | src/dual_ec_drbg_backdoor.py:44-47 | for 0 ≤ n ≤ l the fixed-width rule never raises and its result is below 2^(l − n) |
| Truncation.TruncateNothing | src/dual_ec_backdoor.py:47 | with n = 0, an l-bit value 0 ≤ x < 2^l is returned unchanged |
| Truncation.TruncateReconstruct | src/dual_ec_backdoor.py:77 | for 0 ≤ raw < 2^l with bit_length(raw) > n, the index i = raw >> (l − n) is one of the 2^n values the search enumerates, and the bitwise or of i << (l − n) and truncate(raw, n) is raw |
| Truncation.TruncateRelative | src/test.py:34-35 | relative `truncate(x, n)` raises exactly when bit_length(x) < n. It returns 0 when bit_length(x) = n. Its result lies in [0, 2^(bit_length(x) − n)) and is at most x for x ≥ 0 |
| Truncation.TruncateRelativeSplit | src/dual_ec_drbg.py:38-39 | for x ≥ 0 the relative rule drops exactly the top n bits: top = x >> (bit_length(x) − n) is below 2^n and (top << (bit_length(x) − n)) + truncate(x, n) = x |
| Truncation.TruncateRelativeNothing | src/dual_ec_drbg.py:39 | with n = 0 a non-negative x is returned unchanged |
| Truncation.TruncateRelativeRaises | src/test.py:34-35 | a value with abs(x) < 2^(n − 1) has fewer than n bits, so relative truncation raises |
| Generator.ExplicitSeedDecides | src/dual_ec_backdoor.py:33-38 | with an explicit seed, the stored seed does not affect the call: the stored seed is overwritten by x(x(s·P)·P) either way |
| Generator.DefaultSeedIsStored | src/dual_ec_backdoor.py:34-35 | `generate()` with no seed behaves as `generate(self.seed)` |
| Attack.Reconstruct | src/dual_ec_backdoor.py:77-85 | index i is skipped exactly when the rebuilt x, the bitwise or of i << (l − n) and output, has a non-residue curve value. It raises exactly when n > l, or p + 1 is not divisible by 4 and the value is a residue. Otherwise the prediction is x(e·(x, y)) for a y that puts (x, y) on the curve |
| Attack.ReconstructAtTrueIndex | src/dual_ec_backdoor.py:77-85 | at index raw >> (l − n), which is below 2^n, the rebuilt x is raw itself and the prediction is x(e·(raw, root of the curve value)) |
| Attack.ZeroCurveValueSkipped | src/dual_ec_drbg_backdoor.py:80-81 | a rebuilt x whose curve value is 0 is skipped on any p ≥ 3 |
| DualEcBackdoor.ParamsFit | src/dual_ec_backdoor.py:8-14 | the configured prime satisfies p + 1 ≡ 0 (mod 4) and fits in the 32-bit output (p < 2^32) |
| DualEcBackdoor.MyEC.constructor | src/dual_ec_backdoor.py:18-25 | a new generator is on the configured curve, P and Q are unset, and the seed is the one drawn from [0, p − 1] |
| DualEcBackdoor.MyEC.SetP | src/dual_ec_backdoor.py:27-28 | `set_P(x, y)` succeeds exactly when (x, y) is on the curve and then sets P; otherwise P is unchanged; Q and the seed are always unchanged |
| DualEcBackdoor.MyEC.SetQ | src/dual_ec_backdoor.py:30-31 | `set_Q(x, y)`, as `set_P`, for Q |
| DualEcBackdoor.MyEC.Generate | src/dual_ec_backdoor.py:33-42 | the new seed is x(r·P) with r = x(s·P), where s is the explicit seed or else the stored one (overwritten even when a seed is given). The result is the fixed-width truncation (l = 32) of x(r·Q). Only the seed changes |
| DualEcBackdoor.GenerateFromAnyStored | src/dual_ec_backdoor.py:33-42 | the output of `generate(s)` with an explicit s does not depend on the stored seed |
| DualEcBackdoor.FindPossibleSeeds | src/dual_ec_backdoor.py:74-91 | the search visits i = 0 … 2^trunc − 1 in order and calls `generate(pred_seed)` on each candidate, which overwrites the generator's seed. It keeps the candidates whose output equals next_output. Its result and the final seed are those of the ScanUpTo fold, and it raises (None) as soon as an index or a `generate` call raises |
| DualEcBackdoor.ScanStaysRaised | src/dual_ec_backdoor.py:81-87 | once an exception ends the search, later indices change nothing |
| DualEcBackdoor.ScanAppends | src/dual_ec_backdoor.py:88-89 | the list only grows at its end: seeds kept in the first j iterations form a prefix of those kept in the first k |
| DualEcBackdoor.ScanFoundBounded | src/dual_ec_backdoor.py:76-89 | after k iterations at most k seeds are kept, so the result has at most 2^trunc entries |
| DualEcBackdoor.ScanFoundVerified | src/dual_ec_backdoor.py:85-89 | every kept integer seed s satisfies generate(s) = next_output. A kept None can come only from an index whose prediction x(e·A) is None (e·A at infinity). Then `generate(None)` ran on the seed the generator held before that iteration, and that seed regenerated next_output |
| DualEcBackdoor.ScanKeepsMatch | src/dual_ec_backdoor.py:85-89 | a candidate whose predicted seed reproduces next_output is kept, unless the search raises |
| DualEcBackdoor.TrapdoorRecoversSeed | src/dual_ec_backdoor.py:116-126 | `assert real_seed in predicted_seeds`. Its hypotheses: the first output's raw x-coordinate has more than trunc bits and a residue curve value, and the assumed group-law instance x(e·(raw0, root)) = S1 holds (see "## Left out"). Then the seed S1 stored by the first `generate` is in the search's result, whatever seed the generator holds when the search starts, unless the search raises |
| DualEcDrbgBackdoor.DualECDRBG.constructor | src/dual_ec_drbg_backdoor.py:25-32 | a new generator is on P-256 with P = G, Q the standard point and seed 0x42 |
| DualEcDrbgBackdoor.DualECDRBG.Generate | src/dual_ec_drbg_backdoor.py:34-42 | `generate(n, seed)` uses the given seed, or the stored one when seed is None. It always overwrites the seed with x(r·P) and returns the fixed-width truncation (l = 256) of x(r·Q) by n bits |
| DualEcDrbgBackdoor.FindPossibleSeeds | src/dual_ec_drbg_backdoor.py:75-94 | the search appends one prediction x(e·A) for each i in [0, 2^n) whose curve value is a residue, in ascending i, and returns the Candidates list. It changes no state, calls no `generate`, and ignores real_seed |
| DualEcDrbgBackdoor.RaisedStaysRaised | src/dual_ec_drbg_backdoor.py:77-82 | once an index raises, the whole search raises |
| DualEcDrbgBackdoor.CandidatesNeverRaise | src/dual_ec_drbg_backdoor.py:56-57 | with n ≤ 256 on a prime p ≡ 3 (mod 4), such as P-256, the search never raises |
| DualEcDrbgBackdoor.CandidatesBounded | src/dual_ec_drbg_backdoor.py:76-87 | the list has at most one entry per index, hence at most 2^n entries |
| DualEcDrbgBackdoor.CandidatesSound | src/dual_ec_drbg_backdoor.py:85-87 | every entry is the prediction of some index i < 2^n |
| DualEcDrbgBackdoor.CandidatesComplete | src/dual_ec_drbg_backdoor.py:79-87 | the prediction of every index whose curve value passes the residue test is in the list |
| DualEcDrbgBackdoor.CandidatesPrefix | src/dual_ec_drbg_backdoor.py:76-87 | entries come in ascending order of index: the list for the first j indices is a prefix of the list for the first k |
| DualEcDrbgBackdoor.TrapdoorListsSeed | src/dual_ec_drbg_backdoor.py:128-134 | `assert real_seed in possible_seeds` on P-256. Its hypotheses: the output's raw x-coordinate has more than n bits and a residue curve value, and the assumed group-law instance x(e·(raw0, root)) = S1 holds (see "## Left out"). Then the seed S1 stored by `generate(n)` is in the list |
| P256.PrimeSupportsRoot | src/dual_ec_drbg_backdoor.py:10 | the P-256 prime satisfies p + 1 ≡ 0 (mod 4), so `square_root_mod_p` can be used on it |
| P256.PointsOnCurve | src/dual_ec_drbg_backdoor.py:29-30 | G and Q of the table lie on the curve, so the constructors' `Point(...)` calls do not raise |
| SmallCurveGenerator.RootModulusFits | src/test.py:40-43 | the configured p = 103 passes the `(p + 1) % 4 == 0` assertion of `square_root_mod_p`, so a root exists exactly for the values meeting Euler's criterion |
| SmallCurveGenerator.MyEC.constructor | src/test.py:11-18 | a new generator is on y² = x³ − 3x + 1 over 103 with seed 0xdeadbeef and P, Q unset |
| SmallCurveGenerator.MyEC.SetP | src/test.py:20-21 | `set_P(x, y)` sets P exactly when (x, y) is on the curve |
| SmallCurveGenerator.MyEC.SetQ | src/test.py:23-24 | `set_Q(x, y)` sets Q exactly when (x, y) is on the curve |
| SmallCurveGenerator.MyEC.Generate | src/test.py:26-32 | the stored seed becomes x(x(seed·P)·P) and the result is the 16-bit relative truncation of x(r·Q). P and Q are unchanged |
| SmallCurveGenerator.FieldValuesTooShort | src/test.py:34-35 | every value in [0, 103) has fewer than 16 bits, so `truncate` raises on it |
| SmallCurveGenerator.OutputNeedsUnreducedCoordinate | src/test.py:26-35 | `generate` can return a value only from an x-coordinate outside [0, 103) |
| DualEcDrbg.DualECDRBG.constructor | src/dual_ec_drbg.py:21-28 | a fresh generator has seed 0x42, P = G and the standard Q, fixed at construction |
| DualEcDrbg.DualECDRBG.Generate | src/dual_ec_drbg.py:30-36 | `generate()` replaces the seed by x(r·P), r = x(seed·P), and returns the 16-bit relative truncation of x(r·Q). Only the seed changes |
| DualEcDrbg.OutputDropsTopBits | src/dual_ec_drbg.py:36-39 | an output of `generate` is at most the x-coordinate it came from. It is that coordinate without its top 16 bits, and those bits, put back in front, restore the coordinate |
| EcOrder.RootModulusFits | src/ec.py:40-43 | the configured p = 103 passes the `(p + 1) % 4 == 0` assertion of `square_root_mod_p`, so a root exists exactly for the values meeting Euler's criterion |
| EcOrder.RowCountIsPoints | src/ec.py:21-23 | the inner loop counts, for one x, exactly the y in [0, p) with (x, y) on the curve |
| EcOrder.RowCountBound | src/ec.py:21-23 | the inner loop counts at most p values |
| EcOrder.PointCountBound | src/ec.py:20-23 | the nested loops count at most p² pairs |
| EcOrder.MyEC.constructor | src/ec.py:11-16 | a new object is on y² = x³ − x + 6 over 103, with no order computed yet |
| EcOrder.MyEC.CalcOrder | src/ec.py:18-24 | `calc_order` returns 1 plus the number of (x, y) in [0, p)² with y² mod p = f(x), stores it in `order`, and the value lies in [1, p² + 1] |
| EcOrder.MyEC.PointOrder | src/ec.py:26-32 | for a point of finite order, `point_order(P)` returns the least k ≥ 1 with k·P at infinity, which is 1 for P at infinity |
| EcDlp.FindE | src/ec_dlp.py:10-16 | if `find_e(P, Q)` returns e, then e ≥ 1, e·P = Q, and no smaller positive multiple is Q. It returns None exactly when no positive multiple of P is Q. `find_e(P, P)` = 1 |
| EcDlp.CycleMissesTarget | src/ec_dlp.py:14-15 | once e·P is P again (e ≥ 2) and none of 1·P … (e−1)·P is Q, no positive multiple of P is Q, which justifies the early `return None` |
| EcDlp.PrimesBelowMembers | src/ec_dlp.py:18-28 | the list holds exactly the i in [2, n) with no divisor in [2, i) |
| EcDlp.PrimesBelowAscending | src/ec_dlp.py:18-28 | the list is strictly ascending |
| EcDlp.GeneratePrimes | src/ec_dlp.py:18-28 | `generate_primes(n)` returns, in ascending order, exactly the i in [2, n) that trial division finds prime, which is the empty list for n ≤ 2 |

## Left out

- Point arithmetic of the `ecdsa` and `sage` libraries is not part of this model. In its place, module Curve is a textbook affine model, with k·P as repeated addition. It claims nothing about the libraries' algorithms.
- DualEcBackdoor.TrapdoorRecoversSeed: one group-law instance is a hypothesis, not a consequence of the model. It reads x(e·A) = S1, where A = (raw0, root) is the point the attack rebuilds, root = `square_root_mod_p(f(raw0))`, and S1 = x(r·P) is the seed the first `generate` stores. In the group it follows from four facts that the affine model does not prove. First, A = r·Q or A = −(r·Q): points of the curve with the same x have y = ±root, which needs p prime and Q on the curve. Second, scalar multiples commute: e·(r·Q) = r·(e·Q). Third, the trapdoor e·Q = P, which `main` asserts (src/dual_ec_backdoor.py:108). Fourth, x(−B) = x(B). Separately, the lemma assumes that f(raw0) passes Euler's criterion. That holds in the group because f(raw0) = y(r·Q)² is a square, but it needs the converse of Euler's criterion for a prime p, which is not proved either.
- DualEcDrbgBackdoor.TrapdoorListsSeed: the same single assumed instance x(e·A) = S1, resting on the same four facts, with the trapdoor e·Q = P that `_main` asserts (src/dual_ec_drbg_backdoor.py:108). Euler's criterion for f(raw0) is again a separate hypothesis.
- Field.SqrtModP: the converse of Euler's criterion (that every square passes the residue test modulo a prime) is not proved. The contract states the root property without needing p prime.
- EcDlp.FindE: requires some n ≥ 2 with n·P = P. Without one the source loops forever. In the libraries' finite groups one always exists, but in the affine model it is a precondition.
- EcOrder.MyEC.PointOrder: requires P to have finite order. The source loops forever otherwise.
- DualEcBackdoor.FindPossibleSeeds: takes trunc ≥ 0. A negative width makes `range(0, 2 ** trunc)` fail on a float, which is not modelled.
- DualEcDrbgBackdoor.FindPossibleSeeds: takes n ≥ 0, for the same reason.
- The powers modulo m (Field.ModPow, Field.IsResidue, Field.SqrtModP) take m > 0. Every caller passes a curve's prime.
- `random.randint(0, p - 1)` in the constructor of src/dual_ec_backdoor.py is modelled as the constructor's argument.
- The module-level `ec_params["trunc"]` that `main` reassigns (src/dual_ec_backdoor.py:113-114) is an explicit argument to `Generate` and `FindPossibleSeeds`.
- Every `main`/`_main` is left out: plotting, `time.time()`, printing, `exit()`, `random_point`, and the scripts' own asserts on concrete values.
- No scalar multiplication is evaluated on the 256-bit P-256 constants. Only the on-curve checks of G and Q are.
- The kind of exception (AssertionError, TypeError, ValueError, ZeroDivisionError) is not kept: every raising path gives `None`.
- src/ec_plot.py and the root test.py are plotting only and are not part of this model.
