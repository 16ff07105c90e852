# Million Dollar Curve pipeline, modelled in Dafny

The Million Dollar Curve pipeline generates an Edwards curve
x^2 + y^2 = 1 + d x^2 y^2 over a prime field F_p. Every choice it makes comes
from public lottery draws. It has five stages, each a separate script:

1. `01_draws_to_seed.py` ranks every m-of-n draw in the combinatorial number
   system. It folds the ranks into a mixed-radix seed below a bound L until
   L >= 2^E. Then it appends the parities of further draws as B lone bits
   above L.
2. `02_generate_bbs_parameters.py` uses that seed to pick two strong-strong
   primes p, q. It decodes the seed into one admissible residue per small
   prime, recombines them by CRT, and moves an odometer over the residue
   choices until a candidate c makes c, 2c + 1 and 4c + 3 pass the primality
   test. It also derives the Blum Blum Shub (BBS) start state.
3. `03_generate_prime_field_using_bbs.py` draws size-bit candidates
   `1 b ... b 1 1` from the BBS generator (`bbsengine.py`) until one passes the
   test.
4. `04_generate_curve_using_bbs.py` draws candidates d and puts each through
   eight ordered tests: range, non-residue, point count divisible by 4 with a
   prime quotient, the same for the twist, additive transfer, embedding
   degree of the curve and of the twist, and the CM discriminant. For the first
   d that passes, it draws a base point: a square root u^((p+1)/4) followed by
   two doublings.
5. `05_prove_primes.py` builds Pocklington certificates for a list of primes.
   It also builds them, recursively, for the prime factors the certificates
   use, and then re-checks every certificate.

The shared number theory lives in `subroutines.py`:
- the deterministic Miller-Rabin test over the table `FIRST_PRIMES`;
- the strong and strong-strong prime predicates;
- the Edwards addition law;
- the Edwards to Montgomery to Weierstrass substitutions;
- the CM field discriminant;
- the embedding degree.

The Dafny project has one module per source file, plus two support modules:
- `Wrappers`: Option, Result, and the failures the scripts stop with;
- `Arith`: powers, modular powers, bit lengths, binomials, gcd, and modular
  inverses. These stand in for gmpy2's `powmod`, `bit_length`, `bincoef`,
  `gcd` and `invert`.

What the modules contain:
- Pure source functions are Dafny functions.
- The BBS generator is a class whose methods update its state in place.
- `next_indexes` updates an `array` in place.
- Each script's loops are methods with loop invariants. Most methods are
  proved equal to a specification function, and the properties the scripts
  promise are lemmas about those functions. The exceptions:
  - in `ProvePrimes`, `BuildLargeFactors` states its map through the
    predicates `Closed` and `FromInputs`, and `BuildProofs` states its map key
    by key;
  - `ProvePrimesMain` is tied to `MainOutcome` of a table satisfying
    `ProvenTable`, and `ProvenTableUnique` shows that only one table does;
  - some single-turn helpers (`SearchTurn`, `TryCandidate`, `TryCurveCandidate`,
    `TryBasePoint`) state one step of the specification function.

Three things the scripts get from outside are parameters of the model:
- the PARI factorisation, an oracle function. Its contract is `FactorOracle`:
  ascending rows with positive multiplicities whose product is the argument;
- the SEA point count, an uninterpreted function;
- `gmpy2.next_prime`, a function that only has to increase.

The unbounded `while True` searches take a `fuel` bound and end with
`OutOfFuel` when it runs out.

Where the code and the design description disagree, the model follows the
code:
- Lone bits sit at increasing offsets `L * 2^j`, j = 0, 1, ..., not at
  decreasing ones.
- After the last index vector, `next_indexes` does not land on the all-zero
  vector. The carry runs round to the first digit, and the odometer lands on
  mixed-radix value 1 (`BbsParameters.NextValue`).
- When every radix is 1, `next_indexes` loops forever.
- When the witness scan finds no witness, it silently leaves a_p = N - 1.
  There is no error at that point.
- `embedding_degree` (subroutines.py:154) tests `(p ^ (m // f)) % q`, and `^`
  is a bitwise XOR. The embedding-degree tests 6 and 7 of the curve search use
  that reading (`XorAsWritten`). The modular-power reading is a separate,
  corrected definition (`ModularPower`) with its own lemmas.
- The final check of a certificate (05_prove_primes.py:138) takes the gcd of
  a^((N-1)/p) mod N and N, without the "- 1" of the witness search at line 109.
  `ProofChecks`, `CheckProof`, `VerifyProofs` and `ProvePrimesMain` check it
  as written. The check with the "- 1" is `ProofChecksIntended`.

## Model

| member | source | states |
|---|---|---|
| Subroutines.FirstPrime | subroutines.py:24-36 | entry j of FIRST_PRIMES lies in [2, 1619] and is odd unless it is 2 |
| Subroutines.FirstPrimes | subroutines.py:207-208 | the first k table entries, in table order, which the test uses as bases |
| Subroutines.OddPart | subroutines.py:199-205 | m = 2^s * t with t odd and positive; s >= 1 when m is even (the assertion at line 205) |
| Subroutines.SplitOddPart | subroutines.py:199-204 | the halving loop computes exactly OddPart(m) |
| Subroutines.StrongBaseTest | subroutines.py:208-216 | the squaring loop for one base accepts exactly when b^t = 1, or one of the first s squarings of b^t is n - 1, modulo n |
| Subroutines.AllBasesPass | subroutines.py:207-217 | the loop over the bases returns true exactly when every base passes |
| Subroutines.DeterministicIsPseudoPrime | subroutines.py:191-217 | the procedure returns exactly the pseudo-primality predicate for n and k |
| Subroutines.PassesBaseAsPowers | subroutines.py:209-216 | the squaring loop accepts iff b^t = 1 or b^(2^i t) = n - 1 (mod n) for some i < s |
| Subroutines.PseudoPrimeAsPowers | subroutines.py:197-217 | for odd n > 1619, s >= 1, and n passes iff each of the first k bases satisfies the power condition |
| Subroutines.PseudoPrimeAboveTable | subroutines.py:197-217 | for odd n > 1619 the test is the strong test on the first k bases, with n - 1 = 2^s t |
| Subroutines.PseudoPrimeBelowTableMax | subroutines.py:193-196 | below 1619 exactly the table entries pass: 0, 1, the negatives and every other number fail |
| Subroutines.PseudoPrimeAtLeastTwo | subroutines.py:193-198 | anything that passes is at least 2, and 2 is the only even number that passes |
| Subroutines.StrongStrongIsStrong | subroutines.py:160-174 | p is strong-strong iff p is strong and (p - 1) >> 1 is strong |
| Subroutines.GeneratorGivesStrongStrongPrime | subroutines.py:167-184 | c is a generator iff c, 2c + 1 and 4c + 3 pass, and then 4c + 3 is a strong-strong prime |
| Subroutines.AddOnEdwards | subroutines.py:186-189 | coordinates in [0, p) satisfying x (1 + d x1 x2 y1 y2) = x1 y2 + x2 y1 and y (1 - d x1 x2 y1 y2) = y1 y2 - x1 x2 (mod p); None exactly when a denominator has no inverse |
| Subroutines.IdentityIsNeutral | subroutines.py:186-189 | adding (0, 1) to a reduced point returns it, and (0, 1) + (0, 1) = (0, 1) |
| Subroutines.MontgomeryFromEdwards | subroutines.py:93-96 | A (a - d) = 2 (a + d) and B (a - d) = 4 (mod p), both in [0, p); None exactly when a - d has no inverse |
| Subroutines.WeierstrassFromMontgomery | subroutines.py:88-91 | a' 3B^2 = 3 - A^2 and b' 27B^3 = 2A^3 - 9A (mod p), both in [0, p); None exactly when an inverse is missing |
| Subroutines.SquarePartIsSquare | subroutines.py:126-132 | s_square is the square of the product of p^(m div 2) over the rows |
| Subroutines.SquarePartDivides | subroutines.py:126-133 | s_square is positive and divides the product of the rows, that is t^2 - 4p (the assertion at line 133) |
| Subroutines.FundamentalPart | subroutines.py:135-140 | D = 0 or 1 (mod 4); D * s_square is n exactly when the quotient n / s_square is 1 mod 4, and 4n otherwise |
| Subroutines.CmDiscriminant | subroutines.py:123-140 | the CM discriminant is 0 or 1 mod 4; times the square part it gives t^2 - 4p exactly when (t^2 - 4p) / s_square is 1 mod 4, and four times that otherwise |
| Subroutines.CmFieldDiscriminant | subroutines.py:123-140 | the loop over the factorisation computes exactly CmDiscriminant |
| Subroutines.EmbeddingDegreeDivides | subroutines.py:150-157 | the loop returns a positive divisor of q - 1, for either reading of `^` |
| Subroutines.ReduceOrderKeepsOrder | subroutines.py:152-155 | with `^` read as a modular power, every division keeps p^m = 1 (mod q) |
| Subroutines.EmbeddingDegreeIntendedIsOrderMultiple | subroutines.py:150-157 | with `^` read as a modular power and p^(q-1) = 1 (mod q), the result m satisfies p^m = 1 (mod q) |
| Subroutines.EmbeddingDegreeIntendedIsOrder | subroutines.py:142-157 | with `^` read as a modular power, prime rows and p^(q-1) = 1 (mod q), the result m is the order of p modulo q: m divides q - 1, p^m = 1, p^(m/f) != 1 for each row prime f dividing m, and every e >= 1 with p^e = 1 is a multiple of m, so m is the smallest |
| Subroutines.OrderDividesExponent | subroutines.py:150-157 | a divisor m of q - 1 with p^m = 1 and p^(m/f) != 1 for each prime f dividing m divides every e with p^e = 1 (mod q) |
| Subroutines.EmbeddingDegreeXorCounterexample | subroutines.py:154 | as written (XOR), p = 3 and q = 5 give m = 2, where 3^2 is not 1 mod 5; the intended reading gives 4 |
| Subroutines.EmbeddingDegree | subroutines.py:142-157 | the nested loops compute the embedding-degree function for the chosen reading, a positive divisor of q - 1 |
| BbsEngine.StartState | bbsengine.py:29-32 | the constructor's state lies in [0, n) |
| BbsEngine.Bits | bbsengine.py:38-42 | genbits(k) gives k bits; bit i is the parity of the state after i + 1 squarings |
| BbsEngine.BitsValueIsFromBits | 04_generate_curve_using_bbs.py:131-134 | folding the k bits most significant first gives the recursive value BitsValue, which is below 2^k |
| BbsEngine.BitsCompose | bbsengine.py:38-42 | genbits(a) then genbits(b) emits the bits of genbits(a + b) and leaves the same state |
| BbsEngine.StartWithoutShift | bbsengine.py:26-32 | with shift 0 and (p - 1)(q - 1) > 1 the start state is s mod n |
| BbsEngine.SkipNothing | bbsengine.py:44-46 | skipbits(0) leaves a reduced state unchanged when (p - 1)(q - 1) > 1 |
| BbsEngine.SquaringsArePower | bbsengine.py:34-36 | k squarings of a reduced state raise it to the power 2^k |
| BbsEngine.SkipMatchesSquarings | bbsengine.py:44-46 | when s^((p - 1)(q - 1)) = 1 (mod n), skipbits(k) reaches the state of k genbit calls |
| BbsEngine.BBS.constructor | bbsengine.py:26-32 | n = p q, and s is (s mod n) raised to 2^shift mod (p - 1)(q - 1), modulo n |
| BbsEngine.BBS.GenBit | bbsengine.py:34-36 | s becomes s^2 mod n, the bit is its parity, and p, q, n and 0 <= s < n are kept |
| BbsEngine.BBS.GenBits | bbsengine.py:38-42 | returns Bits(s, k, n) and applies k squarings, keeping p, q, n and the range of s |
| BbsEngine.BBS.SkipBits | bbsengine.py:44-46 | s becomes s^(2^k mod (p - 1)(q - 1)) mod n; nothing else changes |
| DrawsToSeed.SortDraw | 01_draws_to_seed.py:123 | sorted() gives an ascending permutation of the draw |
| DrawsToSeed.SortedUnique | 01_draws_to_seed.py:123 | two ascending sequences with the same elements are equal, so the sorted draw is unique |
| DrawsToSeed.IndexIgnoresOrder | 01_draws_to_seed.py:121-126 | draws with the same values in any order have the same index |
| DrawsToSeed.RankBound | 01_draws_to_seed.py:124-125 | m increasing values in [1, n] have a rank in [0, C(n, m)) |
| DrawsToSeed.RankInjective | 01_draws_to_seed.py:124-125 | increasing positive sequences of the same length with the same rank are equal |
| DrawsToSeed.WellFormedIndexBound | 01_draws_to_seed.py:121-126 | a well-formed m-of-n draw has an index in [0, C(n, m)) |
| DrawsToSeed.IndexFromDraw | 01_draws_to_seed.py:121-126 | the summing loop computes the rank of the m smallest values, or fails when there are fewer than m |
| DrawsToSeed.UseDrawKeepsBound | 01_draws_to_seed.py:87-101 | one used draw keeps 0 <= seed < L (then L 2^j for j lone bits), or finishes the quotas |
| DrawsToSeed.FoldKeepsBound | 01_draws_to_seed.py:70-101 | the loop over the lines keeps the seed within its bound |
| DrawsToSeed.SeedWithinBound | 01_draws_to_seed.py:59-106 | with E >= 1 or B >= 1 and well-formed draws, a written seed is below the written bound L 2^B |
| DrawsToSeed.NoEntropyNoLoneBitsCounterexample | 01_draws_to_seed.py:87-101 | with E = 0 and B = 0, two draws give seed 3 against bound 1 |
| DrawsToSeed.FoldCheckedKeepsBound | 01_draws_to_seed.py:70-101 | with the stop test before each line, the loop keeps the bound |
| DrawsToSeed.SeedWithinBoundChecked | 01_draws_to_seed.py:100-106 | with the stop test first, the written seed is below the written bound for every E and B |
| DrawsToSeed.CheckedAgrees | 01_draws_to_seed.py:87-101 | from a state not yet stopped, the two loop shapes give the same result |
| DrawsToSeed.SeedFromDrawsAgrees | 01_draws_to_seed.py:100-101 | with E >= 1 or B >= 1 the script as written and the checked loop give the same output |
| DrawsToSeed.FoldDrawLines | 01_draws_to_seed.py:70-101 | the loop over the lines computes the fold, with skipped lines, the early stop and the error of a malformed draw |
| DrawsToSeed.DrawsToSeedMain | 01_draws_to_seed.py:59-106 | the script's output or error; it equals the checked version and keeps seed < bound when E >= 1 or B >= 1 |
| BbsParameters.AdmissibleFrom | 02_generate_bbs_parameters.py:87 | exactly the residues in [from, p) that are strong-strong bases, in ascending order |
| BbsParameters.BasisDependsOnResidue | 02_generate_bbs_parameters.py:196-208 | the basis test depends only on alpha mod p |
| BbsParameters.AdmissibleNonEmpty | 02_generate_bbs_parameters.py:87-90 | every modulus p >= 2 has an admissible residue, so every radix is positive |
| BbsParameters.AdmissibleResiduesOfTwo | 02_generate_bbs_parameters.py:77 | the hard-coded [1] for the prime 2 is the comprehension's value |
| BbsParameters.AdmissibleResiduesOfThree | 02_generate_bbs_parameters.py:87 | modulo 3 only 2 is admissible, so the primes 2 and 3 alone give all radices 1 |
| BbsParameters.ProductWithout | 02_generate_bbs_parameters.py:104 | PI = p_k * mu_k, where mu_k is the product of the other primes |
| BbsParameters.DecodeSpec | 02_generate_bbs_parameters.py:211-220 | the indexes are in range, and seed = mixed value + (product of radices) * rest |
| BbsParameters.DecodeEncode | 02_generate_bbs_parameters.py:211-220 | decoding inverts the mixed-radix encoding of in-range digits and a rest |
| BbsParameters.IndexesFromSeed | 02_generate_bbs_parameters.py:211-220 | the loop computes exactly the mixed-radix decoding |
| BbsParameters.NextIndexes | 02_generate_bbs_parameters.py:223-231 | in place, the digits stay in range and the mixed value goes to v + 1, or to 1 after the last vector |
| BbsParameters.NextVector | 02_generate_bbs_parameters.py:223-231 | the next vector is in range and its value is NextValue of the old value |
| BbsParameters.IsNextVector | 02_generate_bbs_parameters.py:223-231 | an in-range vector with the next value is the next vector, so the odometer's result is unique |
| BbsParameters.PrecomputeSpec | 02_generate_bbs_parameters.py:75-90 | the tables built from [2] and [[1]] by appending next primes until PI > 2^(b - 2) are well formed, start at 2 and satisfy the stop condition |
| BbsParameters.Precompute | 02_generate_bbs_parameters.py:75-90 | the loop computes PrecomputeSpec: primes start at 2, follow next_prime, and PI > 2^(b - 2) first holds at the last prime; the tables are well formed |
| BbsParameters.PrecomputeStep | 02_generate_bbs_parameters.py:83-90 | one turn keeps the loop's invariant and at least doubles PI, so the loop ends |
| BbsParameters.AppendPrime | 02_generate_bbs_parameters.py:84-90 | adding a prime with its residues keeps PI, C and the tables consistent |
| BbsParameters.Gamma | 02_generate_bbs_parameters.py:104-106 | gamma = mu * delta is 1 modulo p, or None exactly when mu = PI / p has no inverse modulo p |
| BbsParameters.Gammas | 02_generate_bbs_parameters.py:104-106 | one gamma per prime, or None exactly when some inverse is missing |
| BbsParameters.GammaResidues | 02_generate_bbs_parameters.py:104-106 | gamma_k is 1 modulo its own prime and 0 modulo every other prime |
| BbsParameters.CrtSumResidue | 02_generate_bbs_parameters.py:182 | when gamma_k is 1 and every other gamma is 0 modulo p, the CRT sum is alpha_k modulo p |
| BbsParameters.Candidate | 02_generate_bbs_parameters.py:181-182 | the candidate lies in [0, PI) |
| BbsParameters.CandidateIsAdmissible | 02_generate_bbs_parameters.py:181-182 | c = alpha_k (mod p_k) for every table prime, so c, 2c + 1 and 4c + 3 are non-zero modulo each |
| BbsParameters.Search | 02_generate_bbs_parameters.py:179-188 | an accepted candidate is a CRT candidate with at least b - 2 bits that passes the generator test; otherwise OutOfFuel |
| BbsParameters.SearchStep | 02_generate_bbs_parameters.py:179-188 | an accepted candidate ends the search; a rejected one moves to the next index vector |
| BbsParameters.BitLengthFourTimesPlusThree | 02_generate_bbs_parameters.py:185-192 | 4c + 3 has two more bits than c |
| BbsParameters.AcceptedGivesPrime | 02_generate_bbs_parameters.py:185-192 | an accepted c gives a strong-strong prime 4c + 3 of at least b bits |
| BbsParameters.GenerateResult | 02_generate_bbs_parameters.py:156-192 | the result is a strong-strong prime, 3 mod 4, of at least b bits, whose c is a basis for every table prime; the returned seed is the decoding's rest |
| BbsParameters.CandidateOf | 02_generate_bbs_parameters.py:181-182 | the loop body's recombination computes Candidate |
| BbsParameters.SearchFrom | 02_generate_bbs_parameters.py:179-188 | the loop over the index array computes Search |
| BbsParameters.SearchTurn | 02_generate_bbs_parameters.py:181-188 | one turn either ends with Search's result or moves the array to the next vector with one less fuel |
| BbsParameters.GenerateStrongStrongPrime | 02_generate_bbs_parameters.py:156-192 | the method computes generate_strong_strong_prime's specification |
| BbsParameters.SearchIndexes | 02_generate_bbs_parameters.py:178-192 | started from given in-range indexes, the search and the final 4c + 3 agree with the specification, paired with the rest of the seed |
| BbsParameters.StartResidue | 02_generate_bbs_parameters.py:137-139 | after k avoidance steps the residue lies in [0, n) |
| BbsParameters.StepsToTwo | 02_generate_bbs_parameters.py:137-138 | the avoidance loop reaches the residue 2 within n steps |
| BbsParameters.FirstAllowed | 02_generate_bbs_parameters.py:137-138 | the first step count from k whose residue is none of 0, 1, p, q; every earlier one is excluded, and it comes no later than the residue 2 |
| BbsParameters.BbsStartOf | 02_generate_bbs_parameters.py:135-139 | s0 lies in [0, pq) |
| BbsParameters.BbsStart | 02_generate_bbs_parameters.py:135-140 | the loop computes BbsStartOf: s0 is s^2 mod n for the first residue from seed mod n that is not 0, 1, p or q |
| BbsParameters.GenerateSpecFails | 02_generate_bbs_parameters.py:156-192 | generate_strong_strong_prime fails only by running out of fuel |
| BbsParameters.BbsParametersEntropy | 02_generate_bbs_parameters.py:97-99 | main stops with InsufficientSeedEntropy exactly when seed_upper_bound < C^2 2^(2b); every other failure is a missing inverse or fuel |
| BbsParameters.BbsParametersSound | 02_generate_bbs_parameters.py:112-140 | the output p, q are strong-strong primes, 3 mod 4, of at least b bits, and s0 in [0, pq) is the square of a residue other than 0, 1, p and q |
| BbsParameters.BbsParametersFrom | 02_generate_bbs_parameters.py:97-140 | after the precomputation, the statements compute BbsParametersSpec: p from the seed, q from the rest the first search leaves, s0 from the rest the second leaves |
| BbsParameters.GenerateBbsParameters | 02_generate_bbs_parameters.py:75-140 | main computes BbsParametersSpec on the precomputed tables, so p, q and s0 are the seed's; on success strong-strong primes p, q, 3 mod 4, of at least b bits, and 0 <= s0 < pq; otherwise the entropy, inverse or fuel error |
| PrimeField.CandidateBits | 03_generate_prime_field_using_bbs.py:83-84 | the candidate bits are a leading 1, the drawn bits, then 1, 1 |
| PrimeField.CandidateShape | 03_generate_prime_field_using_bbs.py:83-89 | every candidate is 3 mod 4 and has exactly size bits |
| PrimeField.FoldBits | 03_generate_prime_field_using_bbs.py:85-87 | the fold `(p << 1) or bit` computes the bits' value, most significant first |
| PrimeField.CandidateAt | 03_generate_prime_field_using_bbs.py:82-89 | candidate j + 1 is 3 mod 4 with size bits |
| PrimeField.CandidateAtIsFold | 03_generate_prime_field_using_bbs.py:83-87 | candidate j + 1 is the fold of its framed bits |
| PrimeField.DrawsAreConsecutive | 03_generate_prime_field_using_bbs.py:81-83 | successive candidates read successive blocks of size - 3 generator bits |
| PrimeField.SearchFrom | 03_generate_prime_field_using_bbs.py:81-91 | an accepted result is candidate number count; otherwise OutOfFuel |
| PrimeField.SearchFromStep | 03_generate_prime_field_using_bbs.py:81-91 | a passing candidate ends the search; a failing one moves on to the next |
| PrimeField.SearchFromFirst | 03_generate_prime_field_using_bbs.py:90-91 | the accepted candidate passes the test, and no earlier candidate does |
| PrimeField.SearchFromFails | 03_generate_prime_field_using_bbs.py:81-91 | the search fails exactly when none of the candidates within the fuel passes |
| PrimeField.StrongStrongAtLeastEleven | 03_generate_prime_field_using_bbs.py:66-69 | a strong-strong prime is at least 11 |
| PrimeField.GenerateFrom | 03_generate_prime_field_using_bbs.py:79-93 | keeps bbs_p and bbs_q, counts candidates from 1, and fails only for fuel |
| PrimeField.PrimeFieldSpec | 03_generate_prime_field_using_bbs.py:57-93 | the script fails only on bad BBS primes, the length assertion, or fuel |
| PrimeField.GenerateFromResult | 03_generate_prime_field_using_bbs.py:79-99 | p passes the test, is 3 mod 4, has size bits, is the first passing candidate; bbs_s is the state after the last draw |
| PrimeField.PrimeFieldResult | 03_generate_prime_field_using_bbs.py:57-74 | success implies strong-strong BBS primes (both at least 11) and a generator started on bbs_s mod n |
| PrimeField.InputCheck | 03_generate_prime_field_using_bbs.py:66-69 | the input error happens exactly when bbs_p or bbs_q is not strong-strong |
| PrimeField.DrawCandidate | 03_generate_prime_field_using_bbs.py:83-87 | draws size - 3 bits from the engine and folds the framed candidate |
| PrimeField.TryCandidate | 03_generate_prime_field_using_bbs.py:81-91 | one turn draws candidate j + 1, advances the state by one block and agrees with the search step |
| PrimeField.DrawUntilPrime | 03_generate_prime_field_using_bbs.py:79-91 | the drawing loop computes SearchFrom and leaves the state after the last candidate |
| PrimeField.GeneratePrimeField | 03_generate_prime_field_using_bbs.py:57-99 | the script computes PrimeFieldSpec |
| PrimeField.RunPrimeField | 03_generate_prime_field_using_bbs.py:72-99 | after the checks, the script computes GenerateFrom from bbs_s mod n |
| CurveSearch.Legendre | 04_generate_curve_using_bbs.py:145 | Euler's criterion: 0 iff p divides a, 1 iff a^((p-1)/2) = 1, otherwise -1 |
| CurveSearch.Discriminant | 04_generate_curve_using_bbs.py:187 | the discriminant is the CM field discriminant of t^2 - 4p from its factorisation |
| CurveSearch.DiscriminantBound | 04_generate_curve_using_bbs.py:188 | the bound constant is 2^100 |
| CurveSearch.Examine | 04_generate_curve_using_bbs.py:138-191 | a rejection names a test in 1..8; an abort is a missing inverse or a failed assertion; tests 6 and 7 use embedding_degree as written, with XOR |
| CurveSearch.ExamineCardinality | 04_generate_curve_using_bbs.py:148-191 | from the point count, a rejection names a test in 3..8; an abort is a failed assertion |
| CurveSearch.ExamineSecurity | 04_generate_curve_using_bbs.py:173-191 | tests 6 to 8, with embedding_degree as written (XOR), reject with their number and never abort |
| CurveSearch.TwistDivisible | 04_generate_curve_using_bbs.py:161-164 | for p = 3 mod 4 and 4 dividing the count, 4 divides the twist count; the line 163 assertion cannot fail |
| CurveSearch.AdditiveTransferTestRedundant | 04_generate_curve_using_bbs.py:168-171 | q + q' = (p + 1)/2 with both at least 2 forces q != p and q' != p |
| CurveSearch.ExamineAccepted | 04_generate_curve_using_bbs.py:138-191 | an accepted d has 0 < d < p, is a non-residue, and has the counts, quotients, embedding degrees (computed as written, with XOR) and discriminant the eight tests require |
| CurveSearch.ExamineCardinalityAccepted | 04_generate_curve_using_bbs.py:148-171 | acceptance gives count = 4q, twist count = 2p + 2 - count = 4q', both quotients pass and differ from p |
| CurveSearch.ExamineSecurityAccepted | 04_generate_curve_using_bbs.py:173-191 | acceptance gives degrees, computed as written with XOR, above (q-1)//100 and (q'-1)//100, and a discriminant of at least 2^100 in absolute value |
| CurveSearch.BasePointFrom | 04_generate_curve_using_bbs.py:198-213 | a point attempt gives a point on the curve other than (0, 1); failures are inverse or assertion errors |
| CurveSearch.SqrtOfResidue | 04_generate_curve_using_bbs.py:203-205 | for p = 3 mod 4 and a square u, x = u^((p+1)/4) has x^2 = u (mod p) |
| CurveSearch.StartPointOnCurve | 04_generate_curve_using_bbs.py:202-205 | the point (x, y) built from a square u lies on x^2 + y^2 = 1 + d x^2 y^2 |
| CurveSearch.NonResidueDenominatorInvertible | 04_generate_curve_using_bbs.py:202 | for a non-residue d, 1 - d y^2 is non-zero and invertible mod p |
| CurveSearch.BasePointResult | 04_generate_curve_using_bbs.py:202-211 | the base point is the start point doubled twice, lies on the curve and is not (0, 1) |
| CurveSearch.DrawAt | 04_generate_curve_using_bbs.py:131-134 | each candidate is below 2^size |
| CurveSearch.SearchCandidates | 04_generate_curve_using_bbs.py:123-191 | a found d is the draw of its number, passes the tests, and lies within the limit M; errors are fuel, the limit, or a test's abort |
| CurveSearch.SearchCandidatesStep | 04_generate_curve_using_bbs.py:123-191 | accept ends the search, abort stops the script, reject moves on to the next candidate |
| CurveSearch.SearchCandidatesFirst | 04_generate_curve_using_bbs.py:123-191 | every candidate before the found one was rejected |
| CurveSearch.SearchCandidatesLimit | 04_generate_curve_using_bbs.py:125-127 | the limit error needs M != 0, reports candidate number start - 1 + M, and every candidate before the M-th was rejected |
| CurveSearch.SearchCandidatesBounded | 04_generate_curve_using_bbs.py:125-127 | with a limit M, fuel for M candidates is enough: the bounded search never runs out |
| CurveSearch.SearchBasePoint | 04_generate_curve_using_bbs.py:196-213 | the found point comes from the attempt on its draw; errors are fuel or an attempt's failure |
| CurveSearch.SearchBasePointStep | 04_generate_curve_using_bbs.py:196-213 | a point ends the loop, a failure stops, and a retry draws again |
| CurveSearch.AttemptsOnCurve | 04_generate_curve_using_bbs.py:196-211 | every point the attempts produce lies on the curve and is not (0, 1) |
| CurveSearch.CurveFrom | 04_generate_curve_using_bbs.py:117-213 | after the skip, the output keeps p, bbs_p and bbs_q; errors are inverse, assertion, fuel or limit |
| CurveSearch.WithBasePoint | 04_generate_curve_using_bbs.py:194-232 | the base-point half keeps the accepted d, its test results and its number |
| CurveSearch.ValidInputsBounds | 04_generate_curve_using_bbs.py:95-100 | valid inputs have bbs_p and bbs_q at least 11 and p at least 3 |
| CurveSearch.CheckedCurve | 04_generate_curve_using_bbs.py:86-118 | after the checks, the script never reports an input error |
| CurveSearch.CurveSpec | 04_generate_curve_using_bbs.py:83-100 | the input error happens exactly when the BBS primes or p fail their checks |
| CurveSearch.CurveCandidate | 04_generate_curve_using_bbs.py:117-191 | the accepted d is candidate number candidate_nbr >= start, within the limit, the first since start to pass |
| CurveSearch.CurvePoint | 04_generate_curve_using_bbs.py:194-213 | the base point comes from some draw of the second loop, after the accepted d, and bbs_s is the state right after that draw |
| CurveSearch.CurvePointOnCurve | 04_generate_curve_using_bbs.py:206-211 | the output point lies on the curve of d and is not (0, 1) |
| CurveSearch.CurveAccepted | 04_generate_curve_using_bbs.py:138-171 | the output d is in (0, p), a non-residue, with prime quotients and consistent counts |
| CurveSearch.CurveBasePoint | 04_generate_curve_using_bbs.py:196-213 | the output base point lies on the curve and is not the identity |
| CurveSearch.SkipKeepsCandidates | 04_generate_curve_using_bbs.py:115-118 | after skipping size (start - 1) bits, candidate i is candidate start - 1 + i of the unskipped stream |
| CurveSearch.DrawInteger | 04_generate_curve_using_bbs.py:131-134 | draws size bits and folds them into an integer |
| CurveSearch.ExamineCandidate | 04_generate_curve_using_bbs.py:138-191 | the tests as statements compute Examine |
| CurveSearch.TestCardinality | 04_generate_curve_using_bbs.py:148-191 | tests 3 to 8 compute ExamineCardinality |
| CurveSearch.TestSecurity | 04_generate_curve_using_bbs.py:173-191 | tests 6 to 8, calling embedding_degree as written, compute ExamineSecurity |
| CurveSearch.TryCurveCandidate | 04_generate_curve_using_bbs.py:129-134 | one turn draws candidate i and examines it, advancing the state by one block |
| CurveSearch.FindCandidate | 04_generate_curve_using_bbs.py:123-191 | the candidate loop computes SearchCandidates and leaves the state after the accepted draw |
| CurveSearch.TryBasePoint | 04_generate_curve_using_bbs.py:198-213 | one turn of the base-point loop draws y and applies the attempt |
| CurveSearch.FindBasePoint | 04_generate_curve_using_bbs.py:196-213 | the base-point loop computes SearchBasePoint |
| CurveSearch.FinishCurve | 04_generate_curve_using_bbs.py:194-232 | the second half of the script computes WithBasePoint |
| CurveSearch.SearchCurve | 04_generate_curve_using_bbs.py:117-213 | both loops together compute CurveFrom |
| CurveSearch.RunChecked | 04_generate_curve_using_bbs.py:86-118 | starting the generator and skipping computes CheckedCurve |
| CurveSearch.GenerateCurve | 04_generate_curve_using_bbs.py:83-232 | the script computes CurveSpec |
| ProvePrimes.MaxOf | 05_prove_primes.py:69 | the largest element of a non-empty set |
| ProvePrimes.MinOf | 05_prove_primes.py:100 | the smallest element of a non-empty set |
| ProvePrimes.TakeFrom | 05_prove_primes.py:81-84 | the longest suffix reached by popping from the end: the first one whose product squared exceeds p |
| ProvePrimes.LargeFactorsOf | 05_prove_primes.py:79-87 | the large factors are rows with primes of at least 2 and positive multiplicities |
| ProvePrimes.LargeFactorsProperties | 05_prove_primes.py:79-87 | A^2 > p, A divides p - 1, and A is minimal (without its smallest row, A^2 <= p); every row is in [2, p) and divides p - 1 |
| ProvePrimes.TopFactors | 05_prove_primes.py:77-87 | the popping loop and the reversal compute LargeFactorsOf |
| ProvePrimes.PendingRecord | 05_prove_primes.py:69-87 | one step of the worklist loop keeps its invariant and lowers the bound to p |
| ProvePrimes.PendingDone | 05_prove_primes.py:64-67 | an empty worklist leaves a closed table with every input other than 2 |
| ProvePrimes.BuildLargeFactors | 05_prove_primes.py:58-87 | the table is closed: keys >= 3 map to their large factors, every row is 2 or a key; every input other than 2 is a key, and every key is an input or a row prime of a larger key |
| ProvePrimes.WitnessFrom | 05_prove_primes.py:106-111 | the scan's result lies in [a, N) |
| ProvePrimes.WitnessFromFirst | 05_prove_primes.py:106-112 | the scan from a stops at the first witness, or ends at N - 1 when [a, N) has none |
| ProvePrimes.WitnessFound | 05_prove_primes.py:106-112 | the chosen a_p is a witness iff some witness exists; it is the least one, in [2, N) |
| ProvePrimes.FindWitness | 05_prove_primes.py:106-112 | the scan loop computes the least witness in [2, N), or N - 1 |
| ProvePrimes.WitnessMapRows | 05_prove_primes.py:104-112 | the witness dictionary has exactly the row primes as keys, each mapped to its witness |
| ProvePrimes.Witnesses | 05_prove_primes.py:103-112 | the loop over the rows computes the witness dictionary |
| ProvePrimes.BuildProofs | 05_prove_primes.py:91-113 | 2 gets the trivial proof and every key N gets the certificate (large factors, witnesses) |
| ProvePrimes.RowCheckAsWrittenRedundant | 05_prove_primes.py:137-138 | once a^(N-1) = 1 (mod N), the line 138 check holds for every exponent |
| ProvePrimes.RowCheckAsWrittenAcceptsNonWitness | 05_prove_primes.py:138 | N = 7, p = 2, a = 2 passes the check as written but is no Pocklington witness |
| ProvePrimes.ProofChecksAsWrittenIsFermat | 05_prove_primes.py:122-138 | the assertions as written hold iff the checks on A hold and every a_p^(N-1) = 1 (mod N): the gcd of line 138 adds nothing |
| ProvePrimes.RowAsWrittenIsFermat | 05_prove_primes.py:137-138 | one row passes lines 137-138 iff a_p^(N-1) = 1 (mod N) |
| ProvePrimes.IntendedChecksPassAsWritten | 05_prove_primes.py:122-138 | every certificate that passes the check with the "- 1" passes the assertions as written |
| ProvePrimes.NineCertificateAsWritten | 05_prove_primes.py:104-138 | for N = 9 with factor(8) = 2^3, no a in [2, 9) is a witness for p = 2, the scan leaves a_2 = 8, and the certificate passes the assertions as written but not the intended check |
| ProvePrimes.BuiltProofChecks | 05_prove_primes.py:91-138 | a built certificate passes the intended check (with the "- 1") iff gcd(A, B) = 1 and every row has a witness |
| ProvePrimes.BuiltProofChecksAsWritten | 05_prove_primes.py:91-138 | a built certificate passes the assertions as written iff gcd(A, B) = 1 and every a_p the scan found has a_p^(N-1) = 1 (mod N) |
| ProvePrimes.ProductOf | 05_prove_primes.py:124-126 | the loop computes A, the product of p^m over the rows |
| ProvePrimes.CheckProof | 05_prove_primes.py:122-139 | the assertions of one certificate, with line 138 as written, hold exactly when ProofChecks holds |
| ProvePrimes.VerifyProofs | 05_prove_primes.py:118-139 | the checking loop succeeds iff every certificate passes the assertions as written |
| ProvePrimes.FirstNotPrime | 05_prove_primes.py:51-53 | None iff every input passes; otherwise the first input that fails |
| ProvePrimes.CheckInputs | 05_prove_primes.py:51-53 | the input loop finds FirstNotPrime |
| ProvePrimes.MainOutcome | 05_prove_primes.py:118-139 | the table itself iff every certificate passes the assertions as written, otherwise AssertionFailed |
| ProvePrimes.ProvenTableUnique | 05_prove_primes.py:58-113 | the inputs and the factoring oracle determine the table of proofs: two tables with its defining properties are equal |
| ProvePrimes.ProvePrimesMain | 05_prove_primes.py:51-139 | the first input that fails the test is reported; otherwise the result is MainOutcome of the table of proofs built from the inputs, so it is the proofs exactly when every certificate passes the assertions as written, and AssertionFailed otherwise; on success every input has a checked certificate, and so does every prime those certificates use |
| ProvePrimes.NatToString | 05_prove_primes.py:145 | "%d" of a natural number is a non-empty string of decimal digits |
| ProvePrimes.NatToStringRoundTrip | 05_prove_primes.py:145 | parsing the decimal string gives the number back |
| ProvePrimes.Rendered | 05_prove_primes.py:144-145 | each row is rendered as "p^m" |
| ProvePrimes.AccumulatedIsJoined | 05_prove_primes.py:143-145 | the loop's string is the rows joined by " * " plus one trailing separator |
| ProvePrimes.FactorsToString | 05_prove_primes.py:142-146 | the result is the rows joined by " * ", and "" for no rows |

## Left out

- Command-line parsing, JSON input and output, the output-file-exists guards, printing and `datetime` timing: no model.
- The entropy estimates with `gmpy2.log2`: floating point, not modelled.
- The `math.sqrt` comparisons in 05_prove_primes.py: modelled as the integer conditions A * A <= p (keep popping) and A * A > N. They agree with the float comparison except where rounding near a perfect square matters.
- The PARI library behind `factor`, `sea_weierstrass`, `pari_version` and `pari_cfg_datadir`: foreign code. `factor` is an oracle constrained by `FactorOracle`. The point count is an uninterpreted function of the Weierstrass coefficients.
- `--fast` (early-abort point counting) is not modelled. The point count is always the oracle's exact value.
- `gmpy2.next_prime`: a parameter that only has to increase. The model does not require it to return the next prime.
- utils.py is not part of this model: version checks, `exit_error` (modelled as an `Err` result) and `check` (the boolean itself).
- Termination of the unbounded searches depends on prime density, so each search has a fuel bound and returns `OutOfFuel` when it runs out. This applies to `BbsParameters.Search`, `PrimeField.SearchFrom`, `CurveSearch.SearchCandidates` without a limit, and `CurveSearch.SearchBasePoint`. The source's infinite loops are the fuel-exhausted cases; one is the odometer in which every radix is 1.
- CurveSearch.Legendre: follows Euler's criterion, which equals gmpy2.legendre only for an odd prime p. For a pseudoprime p that is not prime, the model does not capture the Jacobi symbol.
- CurveSearch.NonResidueDenominatorInvertible: takes Fermat's little theorem for p (`FermatHolds`) as a premise. It is not derived from primality.
- BbsEngine.SkipMatchesSquarings: takes s^((p-1)(q-1)) = 1 (mod n) as a premise. Euler's theorem would supply it; the model does not prove that theorem.
- ProvePrimes.BuiltProofChecks: does not prove gcd(A, B) = 1 for a built certificate. That needs unique factorisation. The model states that condition as part of what the final check requires.
- ProvePrimes.BuildLargeFactors: adds all popped factors to the worklist at once, after the inner loop. The source adds them one by one. Sets make the two the same.
- ProvePrimes.BuildProofs: iterates over the key set with a minimum each time. The source pops from the dictionary in the same ascending order.
- The final checks in 05_prove_primes.py: modelled in ascending order of N with the first failing assertion as `AssertionFailed`. The printed text of the proofs is not modelled, apart from `factors_to_string`.
- The `assert p > f[-1][0]` sortedness check inside `factor` is part of `FactorOracle`, not a separate check.
- DrawsToSeed.DrawsToSeedMain: E and B are natural numbers. A negative entropy_to_gather makes the shift at 01_draws_to_seed.py:59 raise ValueError, and a negative nbr_lone_bits makes the bound at line 106 a float; neither case is modelled.
- DrawsToSeed.Line: the draw file arrives already split into lines of kind Blank, Comment or Draw. The parsing at 01_draws_to_seed.py:74-84 is not modelled: a line with fewer than four fields raises ValueError at line 77, a field that is not an integer raises at lines 82-84, a line indented before its "#" is not a comment there (the test uses `startswith` on the unstripped line), and m is a natural number, so a negative m is not modelled.
- BbsParameters.GenerateBbsParameters: b is a natural number. A negative min_prime_bitsize makes the shift `1 << (2 * min_prime_bitsize)` at 02_generate_bbs_parameters.py:98 raise ValueError; that case is not modelled, and neither is it in BbsParametersSpec or PrecomputeSpec.
- PrimeField.PrimeFieldSpec: a zero bbs_p or bbs_q raises ZeroDivisionError at 03_generate_prime_field_using_bbs.py:60, before the strong-strong check. The model reports the input error InvalidPrimeInput instead.
- CurveSearch.CurveSpec: a zero bbs_p or bbs_q raises ZeroDivisionError at 04_generate_curve_using_bbs.py:86, before the strong-strong check. The model reports the input error InvalidPrimeInput instead.
- `deterministic_is_pseudo_prime` with k above the table length: the assertion at subroutines.py:192 becomes a precondition. Every caller uses the default 64.

## Findings

| source | as written | input that shows it | evidently intended | confidence | as-written member | corrected member |
|---|---|---|---|---|---|---|
| subroutines.py:154 | `p^(m // f[0])` is a bitwise XOR, not a power | p = 3, q = 5: q - 1 = 2^2, the XOR test divides m down to 2, but 3^2 = 4 (mod 5) | the modular power p^(m/f) mod q, so that the result is the order of p modulo q | not executed | Subroutines.EmbeddingDegreeXorCounterexample | Subroutines.EmbeddingDegreeIntendedIsOrder |
| 05_prove_primes.py:138 | asserts gcd(a^((N-1)/p) mod N, N) = 1, without the "- 1" of line 109, so the test never fails once a^(N-1) = 1 (mod N) | N = 9 reached with factor(8) = 2^3: the scan finds no witness for p = 2 and leaves a_2 = 8; 8^8 = 1 and gcd(1, 9) = 1 pass, although gcd(8^4 - 1, 9) = 9 | gcd(a^((N-1)/p) - 1, N) = 1, as searched at line 109 and printed at line 139 | not executed | ProvePrimes.NineCertificateAsWritten | ProvePrimes.BuiltProofChecks |
| 01_draws_to_seed.py:100 | the stop test `nbr_lone_bits == 0` runs only after a draw has been used | entropy_to_gather 0, no lone bits, two "1 of 10" draws of value 2: seed 3, written bound 1 | stop before using a draw once nothing is wanted, so that seed < L 2^B | not executed | DrawsToSeed.NoEntropyNoLoneBitsCounterexample | DrawsToSeed.SeedWithinBoundChecked |
