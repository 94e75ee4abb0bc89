# caulk prototype — a Dafny model

The repository is a prototype of a Caulk-style membership proof over
BLS12-381. A prover holds a Pedersen commitment `cm = value·g1 + r·h` to a
value from a public list of field elements. The proof shows that the
committed value is in the list, without revealing which entry it is. The
protocol has three phases:

- **setup**: picks an evaluation domain H of at least n + 2 points. It runs
  a KZG trusted setup and trims the result to `ck_size = max(n, 2·|H| + 3)`.
  It then draws a random second Pedersen base h.
- **prove**: interpolates the list as a polynomial C over H and divides
  `C − value` by `X − ω^index`. It then commits to the quotient q, blinds
  that commitment with random a and s, and sends cm together with
  `T = a⁻¹·[q] + s·h` in G1 and `z = a·(x − ω^index)` and `S = −r − s·z` in G2.
- **verify**: commits to C and compares `e(C − cm, g2)` with `e(T, z)·e(h, S)`.

The model is written in the exponent representation that the source
comments use. Every group element is its discrete logarithm in Z/pZ: G1
elements to the base g of the SRS, G2 elements to the base h of the SRS. A
scalar multiple is a product. A pairing is the product of the two
logarithms. Multiplication in the target group is addition. The modulus p is
a parameter, and every result holds for every prime p, including the
BLS12-381 scalar field.

Modules:

- `Outcomes`: Option, Result, and the ways the prototype aborts. Every panic
  (`unwrap`, `expect`, an out-of-range slice) is an `Err`.
- `Field`: residues, congruences, powers, and inversion by extended Euclid.
- `Polynomial`: dense coefficient sequences. It covers evaluation,
  `from_coefficients_vec` normalisation, subtraction, and division by `X − c`.
- `Kzg`: the arkworks KZG10 parameter records and its trusted setup, in the
  exponent representation.
- `Tools`: `trim` and `commit` from `src/tools.rs`.
- `Protocol`: the `Setup` and `Proof` records, `setup`, `prove` and `verify`
  from `src/main.rs`, and their correctness lemmas.

Three behaviours of the code are worth stating on their own:

- **A value that is not `entries[index]`.** arkworks' polynomial division
  returns the quotient and drops the remainder, so `prove` does not abort.
  `Protocol.HonestProofVerifiesIff` proves that `verify` then returns
  `Ok(false)`, for every secret beta.
- **Any index.** `domain.element(index)` is ω^index for every index. There
  is no bounds check, and the model has none either.
- **Key length.** The trimmed key has `ck_size + 1` powers
  (`Protocol.MakeSetup`).

## Model

| member | source | states |
|---|---|---|
| Tools.Trim | src/tools.rs:12-38 | A degree of 1 is bumped to 2 and any other degree is kept. The result is Ok exactly when index d exists in `powers_of_g` and every key 0..=d exists in `powers_of_gamma_g`. Otherwise the abort is DegreeOutOfRange when the slice would fail and MissingGammaPower when a lookup would fail. The key is the prefix of d + 1 powers of g, and entry i of the d + 1 gamma powers is the map's entry i. The verifier key holds element 0 of both sequences and copies h, beta_h and their prepared forms unchanged. |
| Tools.TrimmedDegree | src/tools.rs:16-18 | The degree trim keeps is never 1 and never smaller than the requested one. It differs from the request only when the request is 1, and then it is 2. `Tools.Trim` uses it. |
| Tools.TrimKeepsKey | src/tools.rs:20-30 | Trimming a key for secret beta gives a key for the same secret. Its first power, which is also `vk.g`, is the generator. |
| Tools.TrimOfSetupInBounds | src/main.rs:54-57 | Trimming the output of a trusted setup of degree D to a degree d ≤ D never aborts (when d = 1, D ≥ 2 is also needed), so `trim(srs, ck_size)` in setup never panics. |
| Tools.Commit | src/tools.rs:40-46 | Ok exactly when the polynomial has no more coefficients than the key has powers. The only abort is TooManyCoefficients. The commitment is a field element and is determined by the polynomial and the key alone, because no hiding randomness is used. |
| Tools.CommitIsEvaluation | src/tools.rs:40-46 | Under a key for secret beta, the commitment to f is f(beta), for every f that fits the key. |
| Kzg.Setup | src/main.rs:54 | The trusted setup of degree D has D + 1 powers of g, and power i is beta^i. The gamma powers exist for keys 0..=D+1. h is the G2 generator and beta_h is beta·h. |
| Polynomial.Normalize | src/main.rs:94 | `from_coefficients_vec` returns a prefix of the coefficients with a nonzero top coefficient (or none at all), and removes only zeros. |
| Polynomial.EvalNormalize | src/main.rs:94-97 | Normalising does not change the value at any point. |
| Polynomial.Sub | src/main.rs:99 | `C − v` is normalised: it is no longer than the longer operand, its coefficients are field elements, and its top coefficient is not zero. Its values are given by `Polynomial.EvalSub`. |
| Polynomial.Quotient | src/main.rs:99 | Division by `X − c` has one coefficient fewer than the dividend (none for the zero polynomial), and its coefficients are field elements. The division identity is `Polynomial.DivisionIdentity`, and exactness is `Polynomial.ExactDivisionIff`. |
| Polynomial.EvalSub | src/main.rs:99 | `C − v` evaluates to C(x) − v(x) in Z/pZ at every x. |
| Polynomial.QuotientIntIdentity | src/main.rs:98-99 | Over the integers, the synthetic quotient satisfies f(x) = q(x)·(x − c) + f(c) at every x. |
| Polynomial.DivisionIdentity | src/main.rs:98-99 | Division by the divisor `X − ω^index` (coefficients `[−ω^index, 1]`) with the remainder dropped satisfies f(x) = q(x)·(x − c) + f(c) in Z/pZ at every x. |
| Polynomial.ExactDivisionIff | src/main.rs:94-99 | q·(X − c) equals C − value at every point exactly when value = C(c). Both directions are proved. |
| Field.Inverse | src/main.rs:106 | `a.inverse()` is None exactly when a = 0. Otherwise it is the field element a⁻¹ with a·a⁻¹ = 1. |
| Protocol.EntriesPoly | src/main.rs:94 | The polynomial C built from the transform of the list is no longer than the transform's output. Its coefficients are field elements, and its top coefficient is not zero. It is the same C that verify rebuilds at src/main.rs:126, and `Protocol.EntriesCommitFits` bounds its size. |
| Protocol.QuotientPoly | src/main.rs:97-99 | The quotient q of `C − value` by `X − ω^index` is empty or shorter than C, and its coefficients are field elements. `Protocol.EquationIffValue` and `Polynomial.ExactDivisionIff` give its meaning. |
| Protocol.Element | src/main.rs:98 | `domain.element(i)` is a field element, and element 0 is 1. There is no bounds check on i. The same element is used for z at src/main.rs:110. |
| Protocol.CkSize | src/main.rs:52 | `ck_size` is at least n and at least 2·size(H) + 3, and it is one of the two. |
| Protocol.MakeSetup | src/main.rs:47-72 | Setup aborts exactly when no domain exists for n + 2 points. Otherwise it keeps that domain, and the key has `ck_size + 1` powers, which is at least n + 1. The parameters are honest: g1 and g2 are the generators, xg2 is beta·g2, h is eta·g1, and the key holds beta^i·g1 with at least 2·size(H) + 4 powers. |
| Protocol.SetupDomainSize | src/main.rs:50 | If the domain routine returns at least the requested size, the domain of the setup has at least n + 2 points. |
| Protocol.Prove | src/main.rs:74-122 | Prove is Ok exactly when the quotient q fits the key and a ≠ 0. Otherwise the abort is TooManyCoefficients when q is too large, which is checked first, as the commit comes before `inverse().unwrap()`, and NotInvertible otherwise. |
| Protocol.Verify | src/main.rs:124-141 | Verify is Ok exactly when C fits the key. Otherwise the abort is TooManyCoefficients. |
| Protocol.PedersenExponent | src/main.rs:84-87 | `cm = value·g1 + r·h` has exponent value + r·eta. |
| Protocol.TExponent | src/main.rs:104-106 | `T = a⁻¹·[q] + s·h` has exponent a⁻¹·q(x) + s·eta. |
| Protocol.ZExponent | src/main.rs:108-110 | `z = a·xg2 − (a·ω^i)·g2` has exponent a·(x − ω^i). |
| Protocol.SExponent | src/main.rs:112-114 | `S = (−r)·g2 − s·z` has exponent −r − s·z. |
| Protocol.ProveExponents | src/main.rs:84-114 | Under honest parameters, an honest proof has cm = value + r·eta, T = a⁻¹·q(x) + s·eta for the inverse a⁻¹ of a, z = a·(x − ω^index) and S = −r − s·z. |
| Protocol.VerifyEquation | src/main.rs:137-140 | Verify returns true exactly when C(x) − cm = T·z + eta·S in Z/pZ. |
| Protocol.RightExponent | src/main.rs:138 | For an honest proof, T·z + eta·S = q(x)·(x − ω^index) − r·eta, because the s·eta terms cancel and a·a⁻¹ = 1. |
| Protocol.EquationIffValue | src/main.rs:94-99 | For an honest proof, the verification equation holds exactly when C(ω^index) = value. |
| Protocol.RemainderRelation | src/main.rs:97-99 | C(x) − value is congruent to q(x)·(x − c) + g(c), where g = C − value and g(c) = C(c) − value. |
| Protocol.EntriesCommitFits | src/main.rs:126-127 | C fits a key with at least 2·size(H) + 4 powers when the transform returns at most size(H) coefficients. |
| Protocol.QuotientCommitFits | src/main.rs:99-102 | The quotient q fits such a key as well. |
| Protocol.HonestProofVerifiesIff | src/main.rs:74-141 | Under honest parameters, prove aborts only when a = 0. For a ≠ 0, verify returns Ok(true) exactly when value = C(ω^index), and Ok(false) otherwise. |
| Protocol.VerifyAgainstOtherList | src/main.rs:124-140 | A proof made for one list and checked against another list is accepted exactly when the two interpolating polynomials agree at the secret beta. |
| Protocol.Completeness | src/main.rs:154-164 | With parameters from setup, an interpolating transform, a ≠ 0, and the prover's own entry as value, prove succeeds and verify returns true. |

## Left out

- src/transcript.rs is not part of this model. It is a Fiat–Shamir transcript wrapper around merlin and serialization, and the protocol does not use it.
- `format_poly_coeffs` and `format_poly_evals` (src/tools.rs:48-68) are left out. They are debug formatting.
- `main` and its `println!` output (src/main.rs:143-176) are left out. Its scenario is stated as `Protocol.Completeness`.
- The concrete BLS12-381 curve, pairing and field arithmetic are replaced by the exponent representation. The model does not show that the curve implements it.
- The primality of the BLS12-381 scalar modulus is not proved. The modulus is a parameter, and the lemmas assume it is prime.
- `GeneralEvaluationDomain::new` is a parameter. Its promise to return at least the requested size is an assumption of `Protocol.SetupDomainSize`.
- `domain.ifft` is a parameter. Its interpolation property is the assumption `Protocol.Interpolates`. The FFT itself is not modelled.
- Kzg.Setup: it states that the gamma powers exist but not their values, because the core only copies them. Its `DegreeIsZero` and degree-too-large errors are not modelled. Setup always asks for degree `max(n, ck_size) ≥ 3`.
- Randomness (`thread_rng`, `Fr::rand`, `G1Projective::rand`) becomes the parameters beta, gamma, eta, r, a and s.
- Integer widths are not modelled. `n + 2` and `2·|H| + 3` are `usize` expressions in the source and are unbounded integers here.
- Protocol.VerifyAgainstOtherList: it states the exact condition under which the proof is accepted, but not that the condition fails except with small probability. Soundness, hiding and unlinkability are computational or probabilistic claims, which the exponent representation cannot express.
- The two verifier checks that the source leaves as a TODO (src/main.rs:166-169) are not added.
- Affine and projective conversions (`into_affine`, `into_projective`) are the identity in this representation. The prepared forms of h and beta_h are copied values.
