# numbTheoryLab kernel in Dafny

This project models the computational kernel of numbTheoryLab, a small C++ number-theory library over
64-bit unsigned words (`u64`). It covers four layers:

- **modular arithmetic** (`src/arithmetic.cpp`): `gcd`, signed `xgcd`, unsigned `xgcd_u64`,
  `modinv`, both paths of `mulmod`, and `powmod`;
- **primality** (`src/primes.cpp`): the parity and small-prime prefilter of `is_prime`, the
  `n - 1 = d * 2^s` decomposition, the Miller-Rabin witness test with its fixed table of seven
  bases, and `next_prime`;
- **factorization** (`src/factor.cpp`): `udiff`, the rho map `f`, one Pollard-rho attempt
  `rho_once` (Floyd cycle detection capped at 200000 iterations), the recursive splitter
  `factor_rec` with its trial-division fallback, `pollard_roh`, and `factorize`, which sorts;
- **congruences** (`src/congruence.cpp`): `solve_linear_congruence` and the two-modulus `crt`.

Each file follows the shape of its source:

- the loops of `gcd`, `xgcd`, `xgcd_u64`, the `mulmod` fallback, `powmod`, the Miller-Rabin
  halving and squaring loops, `is_prime`, `next_prime`, `rho_once`, the trial division and the
  retry loops are `method`s with `while` loops, proved against the functions of `NumberTheory`
  (`Gcd`, `ExtGcd`, `Pow`, `Prime`);
- the output vector of `factor_rec` is a class `Vector` whose `seq` field `PushBack` extends
  and `Sort` permutes into order;
- the straight-line `modinv`, `solve_linear_congruence` and `crt` are functions.

Module `Words` fixes the word model. `u64` is the subset type `0 <= x < 2^64` and `i64` the signed
range. `Wrap` reduces modulo `2^64` wherever the C++ arithmetic wraps: `res + a` and `a << 1` in
the `mulmod` fallback, `mulmod(x,x,n) + c` in `f`, `n += 2` in `next_prime`, `(m1/g)*m2` in `crt`,
and the difference `r2 + m2 - r1` in `crt`.

The process-wide Mersenne-Twister generator and `std::uniform_int_distribution` are replaced by
the class `Factor.Entropy`. It holds a caller-supplied sequence of raw draws. `Draw(lo, hi)`
maps the next one into `[lo, hi]`, and every proof about the rho code uses only
`lo <= v <= hi`, so the rho facts hold for every choice of the starting point `x` and the
constant `c`.

Module `Fermat` proves Fermat's little theorem from the binomial theorem. It also proves that
1 has only the square roots `1` and `p - 1` modulo a prime. These two facts give the soundness
direction of Miller-Rabin: a prime is never rejected.

## Model

| member | source | states |
|---|---|---|
| Arithmetic.Gcd | src/arithmetic.cpp:19-30 | `gcd(0,b) = b` and `gcd(a,0) = a`; otherwise the result divides both arguments and every common divisor divides it, and it equals the mathematical gcd |
| Arithmetic.XgcdU64 | src/arithmetic.cpp:59-72 | the loop's coefficients equal those of the recursive extended Euclid, `g = gcd(A,B)` and `A*x + B*y = g` |
| Arithmetic.EuclidRunBezout | src/arithmetic.cpp:42-53 | the loop invariant `A = a*x0 + b*y0`, `B = a*x1 + b*y1` carries through to the final `a*x + b*y = g` |
| Arithmetic.Xgcd | src/arithmetic.cpp:33-56 | `xgcd(0,0) = {0,0,0}`; otherwise `g = gcd(|a|,|b|)`, `a*x + b*y = g`, and the coefficients are those of the magnitudes with the signs of `a` and `b` restored at the return; `INT64_MIN` excluded because of the negation |
| Arithmetic.XgcdExample | src/arithmetic.cpp:33-56 | `xgcd(35,15)` returns `{1,-2,5}`: the magnitudes' result is `(1,-2,5)` and both signs are positive |
| Arithmetic.TruncRem | src/arithmetic.cpp:81 | C++ `%` on `i64`: the remainder differs from `x` by a multiple of `|d|`, has the sign of the dividend and is below `|d|` in magnitude |
| Arithmetic.ModInv | src/arithmetic.cpp:75-84 | an inverse exists exactly when `m > 0` and `gcd(a mod m, m) = 1`; it lies in `[0,m)` and `a*inv` is `1 mod m` (so `modinv(a,1) = 0`) |
| Arithmetic.ModInvUnique | src/arithmetic.cpp:75-84 | any `y < m` with `a*y = 1 (mod m)` is the value `ModInv` returns: the inverse is unique |
| Arithmetic.ModInvAsWritten | src/arithmetic.cpp:81-83 | with the signed casts of the source, the result agrees with the corrected `ModInv` for every `m < 2^63` |
| Arithmetic.ModInvAsWrittenCounterexample | src/arithmetic.cpp:81-83 | `modinv(2, 2^64-1)` as written returns 0, which is not an inverse; the true inverse is `2^63` |
| Arithmetic.MulMod | src/arithmetic.cpp:89-90 | the 128-bit path returns the residue of `a*b` below `m` |
| Arithmetic.MulModFallback | src/arithmetic.cpp:92-101 | the add-and-double loop, with exact additions, returns the same residue as the 128-bit path, i.e. `(a*b) mod m` |
| Arithmetic.MulModFallbackAsWritten | src/arithmetic.cpp:92-101 | the loop with the wrapping `res + a` and `a << 1` equals the wrapping recursion `AddDouble`, and it is exact whenever `m <= 2^63` |
| Arithmetic.AddDouble | src/arithmetic.cpp:93-101 | the fallback loop as a recursion over the bits of `b`, with `res + a` and `a << 1` wrapping modulo `2^64`; once a bit has been consumed the accumulator is a residue below `m` |
| Arithmetic.AddDoubleExact | src/arithmetic.cpp:95-100 | for `m <= 2^63` no step wraps, and the wrapping loop computes `(res + x*y) mod m` |
| Arithmetic.MulModFallbackCounterexample | src/arithmetic.cpp:98 | for `m = 2^64-1`, `mulmod(2^63, 2, m)` on the fallback gives 0, while the true product residue is 1 |
| Arithmetic.PowMod | src/arithmetic.cpp:106-118 | returns `a^e mod m` (0 when `m = 1`, 1 when `e = 0` and `m > 1`) |
| Primes.Decomposition | src/primes.cpp:37-45 | every `m > 0` is its odd part times `2^s`, with `s >= 1` for even `m` |
| Primes.Decompose | src/primes.cpp:38-45 | the halving loop ends with odd `d`, `n - 1 = d*2^s`, and `s >= 1` for odd `n` |
| Primes.SquareIterPow | src/primes.cpp:23-28 | squaring `a^d mod n` `i` times gives `a^(d*2^i) mod n` |
| Primes.WitnessMeaning | src/primes.cpp:18-30 | `a` is a witness iff `a^d mod n` is neither 1 nor `n-1` and no `a^(d*2^i) mod n`, `1 <= i < s`, is `n-1` |
| Primes.MillerRabinWitness | src/primes.cpp:10-31 | the loop with its early returns computes exactly the witness predicate |
| Primes.PrimeHasNoWitness | src/primes.cpp:18-30 | no base that `n` does not divide is a witness for a prime `n` (Fermat plus the square roots of 1) |
| Primes.MillerRabin | src/primes.cpp:33-64 | returns true exactly when no base of the seven with `a mod n != 0` is a witness |
| Primes.PrimePasses | src/primes.cpp:54-63 | every prime passes the Miller-Rabin loop |
| Primes.Accepts | src/primes.cpp:72-92 | the verdict of `is_prime` as a predicate; nothing below 2 and no even number other than 2 is accepted |
| Primes.IsPrime | src/primes.cpp:72-92 | returns the acceptance predicate: false below 2, true for 2 and 3, false for other even `n`, the prefilter's verdict for the small primes 3..37 and their multiples, Miller-Rabin otherwise |
| Primes.PrefilterMeaning | src/primes.cpp:84-88 | the prefilter accepts only a listed prime, rejects only a proper multiple of one, and passes on only numbers that no listed prime equals or divides |
| Primes.MillerRabinInputs | src/primes.cpp:79-91 | Miller-Rabin only ever sees odd `n >= 41` with no prime factor up to 37 |
| Primes.SmallPrimeIsPrime | src/primes.cpp:79-82 | every entry of the small-prime table is prime |
| Primes.PrimeAccepted | src/primes.cpp:72-91 | every prime is accepted by `is_prime` |
| Primes.AcceptsExactBelow41 | src/primes.cpp:72-88 | below 41 `is_prime` is exact: it accepts exactly the primes |
| Primes.AcceptedComposite | src/primes.cpp:72-91 | an accepted composite is odd, at least 41, has no prime factor up to 37, and passes all seven bases |
| Primes.SearchStep | src/primes.cpp:100-101 | a rejected candidate moves the search by two modulo `2^64`, keeps every skipped odd number rejected, and strictly decreases the cyclic distance to 3 |
| Primes.NextPrime | src/primes.cpp:95-104 | 2 for `n <= 2`; otherwise an accepted odd `p` such that either `p >= n` with no accepted odd number in `[n, p)`, or the walk wrapped and returned 3 with no accepted odd number in `[n, 2^64)` |
| Factor.Entropy.Draw | src/factor.cpp:31-35 | a draw from `[lo, hi]` consumes one supplied value and lands in the range |
| Factor.Vector.PushBack | src/factor.cpp:58 | appends the value and keeps the prior contents |
| Factor.Vector.Sort | src/factor.cpp:117 | the new contents are sorted ascending and are a permutation of the old |
| Factor.Insert | src/factor.cpp:117 | one insertion step extends the sorted prefix by one element and keeps the multiset |
| Factor.UDiff | src/factor.cpp:14-17 | the result is `|a - b|` |
| Factor.Step | src/factor.cpp:20-23 | the result is below `n`, and it is `(x^2 + c) mod n` whenever `n + c <= 2^64` (no wrap of the sum) |
| Factor.RhoWalk | src/factor.cpp:36-45 | the Floyd loop runs at least once and at most 200000 times, returns the gcd of the walk at the step it stopped, and stops early only on a gcd other than 1 |
| Factor.WalkGcdDivides | src/factor.cpp:44 | every gcd of the walk is a positive divisor of `n` |
| Factor.RhoOnce | src/factor.cpp:26-49 | 2 for even `n`; for odd `n` either `n` itself or a divisor strictly between 1 and `n` |
| Factor.TrialDivision | src/factor.cpp:79-82 | returns the least odd divisor in `[3, 100000]` or `n`; no odd number below the result (up to the bound) divides `n` |
| Factor.FactorRec | src/factor.cpp:52-92 | keeps the prior contents of `out` and appends nothing for `n < 2`, otherwise factors of at least 2 whose product is `n`, each either accepted by `is_prime` or an odd number with no odd factor below it up to the trial bound |
| Factor.FactorsJoin | src/factor.cpp:90-91 | the factors of `d` followed by those of `k` are factors of `d*k` |
| Factor.Factorize | src/factor.cpp:113-119 | empty iff `n < 2`; sorted ascending; product `n` for `n >= 2`; every element at least 2 and recordable as above |
| Factor.FactorizeExample | src/factor.cpp:113-119 | whatever the draws, `factorize(360) = [2,2,2,3,3,5]`: a sorted list of recordable factors of at least 2 with product 360 can have no other form |
| Factor.RecordableDivisorOf360 | src/factor.cpp:56-88 | the only divisors of 360 that `factor_rec` can record are 2, 3 and 5 |
| Factor.PollardRoh | src/factor.cpp:99-111 | `n` for `n < 2`, 2 for even `n`, `n` for accepted `n`, and otherwise `n` or a divisor strictly between 1 and `n` |
| Fermat.FermatLittle | src/primes.cpp:54-63 | `a^(p-1) = 1 (mod p)` for a prime `p` not dividing `a`, the fact behind the soundness of Miller-Rabin |
| Fermat.SquareRootOfOne | src/primes.cpp:23-28 | modulo a prime, the only square roots of 1 are 1 and `p-1` |
| Congruence.Solve | src/congruence.cpp:9-47 | the corrected `solve_linear_congruence`: a result exists only for `m > 0` and lies below `m`; SolveSolvable, SolveSound, SolveComplete and SolveNone give its meaning |
| Congruence.SolveSolvable | src/congruence.cpp:11-39 | `solve_linear_congruence` returns none exactly when `m = 0` or `gcd(a mod m, m)` does not divide `b mod m`; so the `!inv_opt` branch is unreachable |
| Congruence.SolveCofactors | src/congruence.cpp:30-34 | after dividing by `g`, `a/g < m/g` and `gcd(a/g, m/g) = 1` |
| Congruence.SolveSound | src/congruence.cpp:9-47 | a returned `x` solves `a*x = b (mod m)` and lies below `m/g` |
| Congruence.SolveComplete | include/ntlab/congruence.hpp:11-13 | every non-negative solution `y` is congruent to the returned `x` modulo `m/g` and at least `x`, so `x` is the smallest non-negative solution |
| Congruence.SolveNone | src/congruence.cpp:25-28 | when none is returned for `m > 0`, no integer solves the congruence |
| Congruence.SolveAsWritten | src/congruence.cpp:9-47 | `solve_linear_congruence` as written, taking the inverse with `modinv` as written; a result exists only for `m > 0` and lies below `m` |
| Congruence.SolveAsWrittenAgrees | src/congruence.cpp:30-44 | the solver as written agrees with the corrected one whenever `m <= 1` or the reduced modulus `m/g` is below `2^63` |
| Congruence.SolveAsWrittenCounterexample | src/congruence.cpp:34-46 | `solve_linear_congruence(2, 1, 2^64-1)` as written returns 0, which does not solve `2x = 1`; the corrected answer is `2^63` |
| Congruence.Difference | src/congruence.cpp:69-80 | the corrected difference lies in `[0, m2)` |
| Congruence.DifferenceFacts | src/congruence.cpp:69-80 | the corrected difference is `r2 - r1` modulo `m2`, in `[0, m2)` |
| Congruence.DifferenceAsWritten | src/congruence.cpp:69-80 | the difference with the wrapping `r2 + m2 - r1`, reduced modulo `m2`, lies in `[0, m2)` |
| Congruence.Lift | src/congruence.cpp:82-99 | the tail of `crt` after the difference: a result has the lcm of the moduli, reduced modulo `2^64`, as its modulus and a residue below it |
| Congruence.Place | src/congruence.cpp:91-99 | the lift `r1 + m1*t` modulo `M = (m1/g)*m2`, computed in words: `M` is the wrapped lcm and `r < M` |
| Congruence.LiftAsWritten | src/congruence.cpp:82-99 | the same tail with the inner solve as written: same modulus, residue below it |
| Congruence.LiftAsWrittenAgrees | src/congruence.cpp:82-87 | for `m2 < 2^63` the tail as written agrees with the corrected one |
| Congruence.Crt | src/congruence.cpp:49-100 | the corrected `crt`: a result exists only for positive moduli and has `r < M`; CrtModulus, CrtSolution, CrtUnique, CrtSolvable and CrtNone give its meaning |
| Congruence.CrtAsWritten | src/congruence.cpp:49-100 | `crt` as written, with the wrapping difference and the inner solve as written: a result exists only for positive moduli and has `r < M` |
| Congruence.CrtModulus | src/congruence.cpp:91-99 | a returned `(r, M)` has `M = lcm(m1,m2)` reduced modulo `2^64` and `r < M` |
| Congruence.CrtSolution | src/congruence.cpp:49-100 | when the lcm fits in a word, `M = lcm(m1,m2)`, `r < M`, `r = r1 (mod m1)` and `r = r2 (mod m2)` |
| Congruence.CrtUnique | include/ntlab/congruence.hpp:15-17 | when the lcm fits, every `x` meeting both congruences is `r` modulo `M` |
| Congruence.CrtSolvable | src/congruence.cpp:51-87 | `crt` returns none exactly when a modulus is 0 or `gcd(m1,m2)` does not divide `r1 - r2` |
| Congruence.CrtNone | src/congruence.cpp:82-87 | when none is returned for positive moduli, no integer meets both congruences |
| Congruence.CrtExample | src/congruence.cpp:49-100 | `crt(2,3,3,5) = (8,15)` |
| Congruence.DifferenceAgrees | src/congruence.cpp:69-80 | the wrapping difference agrees with the true one whenever `r1 <= r2 + m2`, or when `m2` divides `2^64` |
| Congruence.CrtAsWrittenAgrees | src/congruence.cpp:56-87 | `crt` as written agrees with the corrected `crt` when `r1 mod m1 <= r2 mod m2 + m2` (or `m2` divides `2^64`) and the inner solve's reduced modulus `m2/gcd(m1 mod m2, m2)` is below `2^63` |
| Congruence.InverseDefectNeedsWideLcm | src/congruence.cpp:82-93 | when `m1 > 1` and `lcm(m1,m2)` fits in a word, the inner solve's reduced modulus is below `2^63`: the `modinv` defect can change the answer of `crt` only when `M` wraps |
| Congruence.CrtAsWrittenCounterexample | src/congruence.cpp:69-80 | `crt(10,11,0,3)` as written gives `(10,33)` and `10` is not `0 mod 3`; the corrected answer is `(21,33)` |
| Congruence.CrtInverseCounterexample | src/congruence.cpp:82-99 | `crt(0, 2, 1, 2^64-1)` as written gives `(0, 2^64-2)`, and 0 is not 1 modulo `2^64-1`; the corrected model gives `(2, 2^64-2)`; the lcm `2^65-2` wraps in both |

## Left out

- `apps/nttool.cpp`, the command-line front end, is not part of this model. It does only argument parsing and output.
- `rng()` and `std::uniform_int_distribution` are replaced by `Entropy`. The seeding from the device and the clock, the uniformity of the draws and the success probability of Pollard rho are not modelled.
- Primes.AcceptedComposite: states what an accepted composite must satisfy rather than that none exists. The claim that `is_prime` is exact on all of `u64` rests on the published result that the seven bases are deterministic below `2^64`, which is not proved here.
- Factor.FactorRec: does not claim the factors are prime. Every factor is accepted by `is_prime` or survived the trial division. The last-resort branch can append an unsplit `n`.
- Arithmetic.Xgcd: the coefficients are unbounded integers. Since `|a|, |b| < 2^63`, every coefficient stays within `|b|/g` and `|a|/g` in magnitude and no update leaves the `i64` range; the model does not prove this bound.
- Arithmetic.XgcdU64: the coefficients are unbounded integers. Two signed overflows of the source, both undefined behaviour in C++, are not modelled. The final, discarded update can leave the `i64` range: `xgcd_u64(2, 2^64-1)`, which `modinv(2, 2^64-1)` reaches, computes `1 - 2*(-(2^63-1))` in its last step. And `static_cast<i64>(q)` is negative for a quotient `q >= 2^63`, as in `xgcd_u64(2^63, 1)`. The model returns the coefficients of the exact extended Euclid.
- Arithmetic.MulMod: the `#if defined(__SIZEOF_INT128__)` build switch is not modelled. Both paths are separate members, and the rest of the model (`powmod`, `solve_linear_congruence`, `crt`, `f`) uses the 128-bit path.
- Factor.Step: exactness is claimed only when `n + c <= 2^64`. Otherwise the wrapped sum is modelled faithfully, but no arithmetic meaning is claimed.
- Congruence.CrtSolution: needs `lcm(m1,m2) < 2^64`. The wrapped `M` computed by `(m1/g)*m2` is modelled, and Congruence.CrtModulus states it for all inputs.
- Congruence.CrtUnique: needs `lcm(m1,m2) < 2^64`, for the same reason.
- Congruence.Solve and Congruence.Crt are the corrected operations, with the corrected inverse and difference; Congruence.SolveAsWritten and Congruence.CrtAsWritten are the source as written (see Findings).
- Congruence.CrtAsWrittenAgrees: besides the no-wrap condition on the difference, needs the inner solve's reduced modulus below `2^63`, because the source's inner `solve_linear_congruence` inherits the `modinv` defect. Congruence.InverseDefectNeedsWideLcm shows that this holds whenever the lcm fits in a word.
- The header `include/ntlab/factor.hpp` declares `pollard_rho`, but `src/factor.cpp` defines `pollard_roh`. The model follows the definition: `Factor.PollardRoh`.
- The header says the factorization's "order [is] not guaranteed", but the code sorts it. The model follows the code: `Factor.Factorize` promises a sorted result.
- Primes.NextPrime: models the wrap of `n += 2` past `2^64` rather than excluding it. The search terminates because the cyclic walk over odd words reaches 3, which is accepted. No prime-gap bound is claimed.

## Findings

| source | as written | input that shows it | evidently intended | confidence | as-written member | corrected member |
|---|---|---|---|---|---|---|
| src/congruence.cpp:69-80 | `diff = r2 + m2 - r1` with `r1` reduced only modulo `m1`, so the `u64` subtraction wraps when `r1 > r2 + m2` | `crt(10, 11, 0, 3)` returns `(10, 33)`, and `10` is not `0 mod 3` | `diff = (r2 - r1) mod m2`, giving `(21, 33)` | not executed | Congruence.CrtAsWrittenCounterexample | Congruence.CrtSolution |
| src/arithmetic.cpp:81-83 | `r.x % static_cast<i64>(m)` and `x += static_cast<i64>(m)` cast `m` to `i64`, which is negative for `m >= 2^63` | `modinv(2, 2^64 - 1)` returns 0 | the inverse `2^63` | not executed | Arithmetic.ModInvAsWrittenCounterexample | Arithmetic.ModInvUnique |
| src/arithmetic.cpp:97-98 | `res + a` and `a << 1` in the fallback `mulmod` wrap in `u64` when `m > 2^63` | `mulmod(2^63, 2, 2^64 - 1)` on the fallback path returns 0 | `(2^63 * 2) mod (2^64 - 1) = 1` | not executed | Arithmetic.MulModFallbackCounterexample | Arithmetic.MulModFallback |

The `modinv` defect also reaches `solve_linear_congruence`, which calls `modinv(a/g, m/g)`:
Congruence.SolveAsWrittenCounterexample shows `solve_linear_congruence(2, 1, 2^64-1)` returning 0,
and Congruence.SolveAsWrittenAgrees shows agreement whenever `m/g < 2^63`. Through the inner solve
the defect reaches `crt` (Congruence.CrtInverseCounterexample), but only when the lcm of the moduli
does not fit in a word (Congruence.InverseDefectNeedsWideLcm). The model's `Congruence.Solve` and
`Congruence.Crt` use the corrected inverse.
