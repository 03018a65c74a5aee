# Prime-field arithmetic and the number-theoretic transform

This project models two parts of a small Rust library.

**The prime field (`PrimeFieldElement`).** An element is a value together with the modulus `q` of its field.
- Construction reduces the value into `[0, q)`, for negative values too.
- Addition, subtraction, multiplication and division first check that both operands come from the same field. A mismatch is a panic in the source.
- `egcd` is the iterative extended Euclidean algorithm.
- `inv` is the modular inverse built on `egcd`.
- `mod_pow` is a 128-round left-to-right square-and-multiply.
- `legendre_symbol` is `mod_pow` with the exponent `(q - 1) / 2`.

**The number-theoretic transform (NTT).**
- `dft_finite_fields` is the 2-point transform `[x0 + x1, x0 + omega * x1]`.
- `ntt_fft` splits its input by parity and transforms both halves recursively. It builds the twiddle factors `omega^j` and recombines the halves with butterflies `E[j] + O[j] * omega^j`.
- `intt_fft` transforms with `inv(omega)` and divides every entry by the length.

The recursion in `ntt_fft` passes the *same* `omega` to both halves, not `omega^2` (src/fft.rs:66). The model keeps this, so `Fft.Ntt` is not a discrete Fourier transform for lengths of 4 or more. Its closed form is proved instead: `FftProperties.NttIsTwistTransform`. The evidently intended recursion, with `omega^2`, is modelled separately in `CanonicalNtt`. There it is proved to be the discrete Fourier transform, and `intt_fft` is proved to undo it.

## Design

**Modules**
- `Modular` holds the mathematical vocabulary: powers, Euclidean residues, divisibility, gcd, primality.
- `RustInt` models Rust's truncating `/` and `%` on `i128`. The source uses them on operands that may be negative.
- `Panics` turns the two panics into values: `Result<T>` is `Ok(value)` or `Err(error)`, with `Error = FieldMismatch | OddLength`.
- `Seqs` holds three small facts about sequences built entry by entry.
- `PrimeField` models src/fft/prime_field_element.rs.
- `Fft` models src/fft.rs as written.
- `FftProperties` proves properties of `Fft`.
- `CanonicalNtt` holds the intended `omega^2` recursion.
- `NttInverse` holds the inversion theorem.

**Form of each operation**
- The field operations are pure functions.
- `egcd` and `mod_pow` are loops in the source. They become methods (`PrimeField.Egcd`, `PrimeField.ModPow`), proved equal to the functions `ExtendedGcd` and `Power`.
- The vector-filling loops of `ntt_fft` become methods:
  - `Fft.SplitByParity`, `Fft.TwiddleFactors`, `Fft.SplitByMiddle` and `Fft.HadamardSums`;
  - `Fft.DftFiniteFields`;
  - `Fft.NttFft`, the whole recursive procedure.
- Each method's `ensures` ties its result to the input or to a specification function:
  - `Fft.SplitByParity` and `Fft.SplitByMiddle` state their halves entry by entry, by index and by slice;
  - `Fft.TwiddleFactors` is stated against `Fft.Twiddles`, `Fft.HadamardSums` against `Fft.Combine`;
  - `Fft.DftFiniteFields`, the base case of `ntt_fft`, is stated against `Fft.Dft2`;
  - `Fft.NttFft` is stated against `Fft.Ntt`.
- `intt_fft` is a call followed by a `map`, and is the function `Fft.Intt`. Its `map` step is `Fft.Unscale`, shared with `CanonicalNtt.Intt`.

An element written out directly (`PrimeFieldElement { value, field }` in the source's tests) need not be reduced. So `Element.value` is any integer, and the contracts say what happens for canonical operands and for arbitrary ones.

## Model

| member | source | states |
|---|---|---|
| RustInt.Rem | src/fft/prime_field_element.rs:57 | Rust's `%`: the remainder is smaller than the divisor in magnitude and takes the dividend's sign (zero included) |
| RustInt.Div | src/fft/prime_field_element.rs:57 | Rust's `/`: the quotient recombines with `Rem` to the dividend, and rounds toward zero (its magnitude times the divisor's is at most the dividend's) |
| PrimeField.Reduce | src/fft/prime_field_element.rs:35 | `(v % q + q) % q` with the truncating `%` is the Euclidean residue of `v`, for negative `v` too |
| PrimeField.New | src/fft/prime_field_element.rs:33-38 | the result is in the given field, lies in `[0, q)` and is the Euclidean residue of `v`, negative `v` included |
| PrimeField.Add | src/fft/prime_field_element.rs:118-128 | fails with a field mismatch (the panic of `same_field_check`) exactly when the moduli differ; otherwise keeps the left operand's field and is congruent to `a + b`, and for canonical operands it is exactly `(a + b) mod q`, in `[0, q)` |
| PrimeField.Sub | src/fft/prime_field_element.rs:130-140 | fails exactly on a field mismatch; otherwise the value is the canonical residue of `a - b` in the left operand's field |
| PrimeField.Mul | src/fft/prime_field_element.rs:142-152 | fails exactly on a field mismatch; otherwise the value is congruent to `a * b`, and equals `(a * b) mod q` for non-negative operands |
| PrimeField.Div | src/fft/prime_field_element.rs:154-164 | fails exactly on a field mismatch; otherwise the value is `inv(b) * a` reduced, with no failure for a non-invertible divisor |
| PrimeField.AddUndoesSub | src/fft/prime_field_element.rs:118-140 | for canonical operands of one field, `(a - b) + b == a` |
| PrimeField.DivThenMul | src/fft/prime_field_element.rs:142-164 | for canonical operands of one field whose divisor is coprime to `q`, `(a / b) * b == a` |
| PrimeField.ExtendedGcd | src/fft/prime_field_element.rs:53-68 | the triple `(g, s, t)` satisfies Bezout's identity `s*x + t*y == g`, and for non-negative inputs `g` is their gcd |
| PrimeField.EgcdLoop | src/fft/prime_field_element.rs:56-66 | on non-negative inputs the remainder the loop ends with is non-negative, and it is zero exactly when both inputs are zero |
| PrimeField.EgcdLoopBezout | src/fft/prime_field_element.rs:56-66 | every iteration of the loop keeps `a0*X + b0*Y == x` and `a1*X + b1*Y == y`, so the final coefficients satisfy Bezout's identity |
| PrimeField.EgcdLoopDivides | src/fft/prime_field_element.rs:56-67 | for non-negative inputs the loop's result is non-negative, is zero only when both inputs are, and divides both inputs |
| PrimeField.Egcd | src/fft/prime_field_element.rs:53-68 | the loop with truncating division returns `ExtendedGcd`, hence Bezout's identity and, for non-negative inputs, the gcd |
| PrimeField.Inv | src/fft/prime_field_element.rs:92-98 | the result is canonical and in the same field, and `inv(0)` is 0 (the loop never runs) |
| PrimeField.InvIsInverse | src/fft/prime_field_element.rs:92-98 | for a canonical element, `inv(a) * a == 1 (mod q)` if and only if `a` and `q` are coprime |
| PrimeField.InvInvolution | src/fft/prime_field_element.rs:92-98 | for a canonical element coprime to `q`, `inv(inv(a)) == a` |
| PrimeField.Power | src/fft/prime_field_element.rs:100-115 | the result is in the same field and congruent to `a^pow`; it is exactly `a^pow mod q` for non-negative `a`, and 1 for `pow == 0` |
| PrimeField.SquareAndMultiply | src/fft/prime_field_element.rs:107-113 | one round: squaring the power for the exponent's bits above `k`, and then multiplying by `a` when bit `k` is set, gives the power for the bits from `k` up |
| PrimeField.ModPow | src/fft/prime_field_element.rs:100-115 | for `0 <= pow < 2^127` the 128 rounds of square-and-multiply return `Power(a, pow)`, that is `a^pow` reduced |
| PrimeField.LegendreSymbol | src/fft/prime_field_element.rs:40-42 | the result is congruent to `a^((q-1)/2)` and lies in `[0, q)` for non-negative `a` |
| PrimeField.EgcdTestVector | src/fft/prime_field_element.rs:189 | `egcd(3, 19)` is `(1, -6, 1)` |
| PrimeField.InvTestVector19 | src/fft/prime_field_element.rs:201 | `inv(3) == 13` modulo 19 |
| PrimeField.InvTestVector23 | src/fft/prime_field_element.rs:234-237 | `inv(2) == 12` modulo 23 |
| PrimeField.ArithmeticTestVectors | src/fft/prime_field_element.rs:202-233 | the test vectors `13 * 5 == 8`, `13 + 5 == 18` and `13 + 13 == 7` modulo 19 hold; adding elements of the fields 19 and 23 fails |
| PrimeField.LegendreTestVectors | src/fft/prime_field_element.rs:40-42 | modulo 19, the symbol of 4 (a square) is 1, of 2 (a non-square) is 18, and of 0 is 0 |
| Fft.Dft2 | src/fft.rs:13-27 | fails exactly when `x0`, `x1` and `omega` are not all in one field; otherwise returns two elements of that field, which for canonical inputs are exactly `[x0 + x1, x0 + omega * x1]` reduced |
| Fft.DftFiniteFields | src/fft.rs:21-26 | pushing the two sums into a fresh vector yields `Dft2` |
| Fft.SplitByParity | src/fft.rs:52-61 | the even half holds `x[2i]` and the odd half `x[2i+1]`, in order, with lengths `ceil(n/2)` and `floor(n/2)` |
| Fft.TwiddleFactors | src/fft.rs:69-74 | the factor vector has length `size` and entry `j` is `mod_pow(omega, j)` |
| Fft.Twiddles | src/fft.rs:69-74 | `n` factors, entry `j` in `omega`'s field and congruent to `omega^j` |
| Fft.SplitByMiddle | src/fft.rs:77-87 | the two halves are the first and second half of the factor vector |
| Fft.SplitTwiddles | src/fft.rs:69-87 | for an even size, the two halves of the factor vector are in `omega`'s field and together form the twiddle factors |
| Fft.HadamardSums | src/fft.rs:89-96 | the two push loops produce exactly the butterfly recombination `E[j] + O[j] * t[j]` of the halves, with the first half of the factors on the first half of the result and the second half on the second |
| Fft.Combine | src/fft.rs:89-96 | the recombination fails, with a field mismatch, exactly when at some `j` the even entry, the odd entry and the factors `j` and `j + n/2` are not all in one field; a success has as many entries as there are factors |
| Fft.CombineOfHalves | src/fft.rs:89-96 | a result whose two halves are the butterflies with the two halves of the factors is the recombination |
| Fft.Butterfly | src/fft.rs:92 | `e + o * t` fails exactly when the three operands are not in one field, and otherwise lies in `e`'s field |
| Fft.CombineFields | src/fft.rs:89-96 | a successful recombination keeps the field of the even half at both `j` and `j + n/2` |
| Fft.CombineKeepsField | src/fft.rs:89-96 | a successful recombination of an even half in field `q` lies in `q` |
| Fft.Ntt | src/fft.rs:29-114 | a successful transform has the input's length, and every entry lies in `omega`'s field |
| Fft.NttRecursion | src/fft.rs:66-96 | one level of the recursion transforms both halves with the unchanged `omega` and recombines them with the twiddle factors of the full size |
| Fft.NttFft | src/fft.rs:29-114 | the procedure, with its push loops and the recursion on the same `omega`, computes `Fft.Ntt` |
| Fft.DivideAll | src/fft.rs:127-130 | dividing every entry by `d` fails, with a field mismatch, exactly when some entry is not in `d`'s field; otherwise entry `i` is `s[i] / d` and the length is kept |
| Fft.Unscale | src/fft.rs:125-130 | a failed transform is passed on unchanged; a successful one succeeds exactly when it lies in field `q`, and then entry `i` is divided by `new(n, q)` |
| Fft.Intt | src/fft.rs:116-133 | fails exactly when the transform with `inv(omega)` fails; otherwise keeps the length and entry `i` is that transform's entry `i` divided by `new(len, q)` |
| FftProperties.NttOutcome | src/fft.rs:33-37 | the transform fails with the odd-length panic exactly when the length is not a power of two of at least 2; on such a length it succeeds exactly when all entries share `omega`'s field, and otherwise fails with a field mismatch |
| FftProperties.ButterflyValue | src/fft.rs:92 | on canonical operands of one field `q`, the butterfly `e + o * t` is `(e + o * t) mod q` |
| FftProperties.CombineAt | src/fft.rs:89-96 | entry `j` of the recombination is the butterfly of `E[m]`, `O[m]` and the factor `j`, for `m == j mod n/2` |
| FftProperties.TwistSumSplit | src/fft.rs:66-96 | the closed-form sum over a length-`n` input splits into the sums over the even and odd halves at index `j mod n/2`, the odd one weighted by `omega^j` |
| FftProperties.NttOfTwo | src/fft.rs:13-27 | on two canonical entries of `omega`'s field, the base case returns `[x0 + x1, x0 + omega * x1]` reduced |
| FftProperties.NttIsTwistTransform | src/fft.rs:29-114 | on canonical entries and a power-of-two length, the same-`omega` transform has entry `j == sum_i x_i * omega^(Twist(n, i, j))` reduced: the exponent collects `j mod n/2^l` for every bit `l` of `i`, rather than `i * j` |
| FftProperties.ForwardExample | src/fft.rs:311-319 | over `q = 5` with `omega = 2`, the transform of `[1, 4, 0, 0]` is `[0, 4, 2, 3]` |
| FftProperties.InverseExample | src/fft.rs:321 | over `q = 5` with `omega = 2`, the inverse of `[0, 4, 2, 3]` is `[1, 0, 0, 3]` |
| FftProperties.FourElementRoundTripFails | src/fft.rs:308-327 | as written, the round trip of the four-element test gives `[1, 0, 0, 3]`, not the input `[1, 4, 0, 0]` |
| CanonicalNtt.Ntt | src/fft.rs:29-114 | the transform with `omega^2` in the recursion: a successful result has the input's length and lies in `omega`'s field |
| CanonicalNtt.Intt | src/fft.rs:116-133 | `intt_fft` over the corrected transform: it fails exactly when the transform with `inv(omega)` fails, and otherwise divides every entry by the length |
| CanonicalNtt.DftSumSplit | src/fft.rs:66-96 | the DFT sum over `2k` entries is the sum over the even entries at `omega^2` plus `omega^j` times the sum over the odd entries |
| CanonicalNtt.CombineIsDft | src/fft.rs:89-96 | recombining the DFTs of the halves at `omega^2` gives the DFT of the whole, for `omega` with `omega^n == 1` |
| CanonicalNtt.NttIsDft | src/fft.rs:29-114 | for `omega^n == 1` and canonical entries of a power-of-two length, the corrected transform is the discrete Fourier transform `y_j == sum_i x_i * omega^(i*j) mod q` |
| CanonicalNtt.DftOfTwo | src/fft.rs:13-27 | the base case is the discrete Fourier transform of order 2 |
| CanonicalNtt.FourElementRoundTrip | src/fft.rs:308-327 | with the corrected recursion, the forward transform of `[1, 4, 0, 0]` over `q = 5` with `omega = 2` is `[0, 4, 2, 3]` and the inverse returns `[1, 4, 0, 0]` |
| NttInverse.Orthogonality | src/fft.rs:116-133 | for a primitive `n`-th root `w` and its inverse `u` modulo a prime, `sum_j w^(ij) u^(jk)` is `n` when `i == k` and 0 otherwise |
| NttInverse.ComposedTransforms | src/fft.rs:116-133 | the DFT at `u` of the DFT at `w` is `n` times the input, modulo `q` |
| NttInverse.InverseRootFacts | src/fft.rs:121 | the inverse of a primitive root computed by `inv` is a true inverse and again a root of unity, and the field is odd |
| NttInverse.LengthInvertible | src/fft.rs:120-129 | a power-of-two length is invertible modulo an odd prime, so the division by the length can be undone |
| NttInverse.InttInvertsNtt | src/fft.rs:116-133 | for an odd prime `q` and a primitive `n`-th root `omega`, `intt_fft` undoes the corrected transform on canonical entries of a power-of-two length |
| NttInverse.TwoEntriesAgree | src/fft.rs:36-37 | at length 2 the as-written and the corrected transforms coincide with `dft_finite_fields` |
| NttInverse.TwoElementRoundTrip | src/fft.rs:290-306 | at length 2 and a primitive square root of unity modulo a prime, the source's own `intt_fft(ntt_fft(x))` returns `x` |
| NttInverse.TwoElementRoundTripAtMinusOne | src/fft.rs:290-306 | for every odd modulus, prime or not, and `omega = q - 1`, the source's `intt_fft(ntt_fft([a, b]))` returns `[a, b]` |

## Left out

- `dtf_slow` and `fft` (src/fft.rs:150-190) are not part of this model. They compute on `f64` complex numbers through modules that are not part of this model either.
- `test()` (src/fft.rs:192-285) is a timing demo that prints and reads the wall clock.
- The `println!` calls inside `ntt_fft` and `intt_fft`, and the `Display` impl, are output only.
- `Rem` (src/fft/prime_field_element.rs:166-176) always returns zero and nothing uses it.
- The panic message of `same_field_check` is not modelled; a panic is `Err(FieldMismatch)` or `Err(OddLength)`.
- Field references and lifetimes are left out. A field is represented by its modulus.
- The modulus is an integer above 1 (`PrimeField.Modulus`). The source accepts any `i128`: with `q = 0` every operation panics on `% 0`, with `q = 1` the only value is 0, and with a negative `q` the reduction can return a negative value. These moduli are not modelled.
- Values are unbounded integers. The `i128` overflow of `value * value` for large moduli is not modelled.
- PrimeField.ModPow: requires `0 <= pow < 2^127`. Negative exponents, where bit 127 of `pow` is the sign bit and `1 << 127` wraps, are not modelled.
- Fft.NttFft: requires a length of at most `2^64` (`usize`), so every twiddle exponent `j as i128` is non-negative.
- Fft.Ntt: requires a non-empty input. On an empty vector the source recurses without end, since 0 is even and not 2.
- Fft.Dft2: requires at least two entries, as the source indexes `x[0]` and `x[1]`. A shorter `Vec` would panic on indexing.
- PrimeField.Div: succeeds for a divisor that is not invertible, as the source does. The value is then `inv(b) * a` with the meaningless `inv(b)`.
- PrimeField.LegendreSymbol: states the value `a^((q-1)/2) mod q`. That it is always 0, 1 or `q - 1` for a prime `q` (Euler's criterion) is not proved.
- FftProperties.FourElementRoundTripFails: shows that the general round trip does not hold for the as-written transform. No general inverse is claimed for `Fft.Ntt` at lengths of 4 or more.

## Findings

| source | as written | input that shows it | evidently intended | confidence | as-written member | corrected member |
|---|---|---|---|---|---|---|
| src/fft.rs:66 | both recursive calls transform the halves with the same `omega` | over `q = 5` with `omega = 2`, `ntt_fft([1, 4, 0, 0])` is `[0, 4, 2, 3]` and `intt_fft` of that is `[1, 0, 0, 3]`, so the assertion at src/fft.rs:321-326 fails | the halves are transformed with `omega^2`, making `ntt_fft` the discrete Fourier transform and `intt_fft` its inverse | not executed | FftProperties.FourElementRoundTripFails | CanonicalNtt.Ntt, with NttInverse.InttInvertsNtt and CanonicalNtt.FourElementRoundTrip |
