# grade_processor numeric core in Dafny

This project models the exact part of the `gmath` and `signal_processing` code of
grade_processor, a Rust crate:

- integer number theory: the trial-division prime list, `is_prime`, `factorize`, `gcd`
  and `lcm`;
- the algebraic part of the generic complex number type, including its in-place
  compound assignments;
- the Fourier transforms:
  - the direct transforms `dft` and `idft`;
  - the mixed-radix recursion `fft_core` and its wrappers `fft` and `ifft`;
  - the two-dimensional `fft2` and `ifft2`;
- the statistics helpers: mean, square mean, harmonic mean, population variance, median
  with its in-place sort, mode and order-preserving unique;
- the element-wise `Vector` operations;
- the `Matrix` record with its shape bookkeeping and its cached transpose.

The element types are exact `real`s. The complex and Fourier code is generic over a
floating-point `T`; the model replaces it by exact reals. The statistics, vector and matrix
code is generic over its number type; the model instantiates it with exact reals (see
"Left out" for what the statistics bound admits). Every Rust `panic!`, failed
`unwrap`, out-of-range index, arithmetic overflow and `unimplemented!` becomes an `Err` of the
`Result` type in `panics.dfy`. The one loop that never ends, `factorize(0)`, becomes the
failure `Diverges` where the transforms reach it, and a precondition on `factorize` itself.

Files and modules:

- `panics.dfy` (`Panics`): `Option`, `Result` and the kinds of failure.
- `numbers.dfy` (`Numbers`): `src/gmath/numbers.rs`.
  - `get_primes_number` and `factorize` are loops proved against the functions `PrimeList`
    and `Factors`.
  - `gcd` and `lcm` are functions.
  - The `u32` overflow of `a * b` in `lcm` is explicit.
- `complex.rs` maps to two parts of `complex.dfy` (`ComplexNumbers`):
  - the value type, with its arithmetic as functions;
  - a class `ComplexVar` whose methods are `+=`, `-=`, `*=` and `/=`.
- `fourier.dfy` (`Fourier`) holds the loops of `fourier.rs`, each proved equal to a
  recursive specification function. The twiddle factor `from_polar(1, ∓2π·num/den)` is a
  function-valued parameter `w`, so every result holds for any choice of twiddle.
- `fourier_laws.dfy` (`FourierLaws`) holds what the transforms guarantee:
  - which positions the recursion reads: a digit-reversal permutation of `0..size`;
  - when a plan succeeds, and how incomplete factorisations make it fail;
  - that the inverse is the forward recursion with the opposite sign, scaled by `1/n` once;
  - the row/column order of the 2-D transforms.
- `fourier_agreement.dfy` (`FourierAgreement`) proves that `fft_core` computes the direct
  transform of the positions it reads, so `fft` and `ifft` agree with `dft` and `idft`.
  This holds for every twiddle that obeys three root-of-unity laws, which
  `from_polar(1, ∓2π·num/den)` obeys over exact reals:
  - a whole number of turns gives one;
  - only the angle num/den matters;
  - angles add.
- `statistics.dfy` (`Statistics`): `src/gmath/statistics.rs`.
  - `median` sorts the caller's array in place.
  - `mode` and `unique` are loops over sequences and maps.
- `vectors.dfy` (`Vectors`): `src/gmath/vector.rs`. Each operation copies the data into an
  array and updates it in a loop, as the source does.
- `matrices.dfy` (`Matrices`): `src/gmath/matrix.rs`, as a class whose fields are the
  record's fields, including the cache fields.

Some facts about `fft` and `ifft` that the lemmas make explicit:

- `fft` does not zero-pad: a requested size beyond the signal reads past its end
  (`FourierLaws.NoZeroPadding`);
- an empty signal asks for `factorize(0)` (`FourierLaws.EmptySignalDiverges`);
- an incomplete factorisation panics or collapses (`FourierLaws.Length14Panics`,
  `FourierLaws.PrimeLengthCollapses`);
- the only scaling is the final division in `ifft`, by the size, once.

## Model

| member | source | states |
|---|---|---|
| Numbers.PrimeListMembers | src/gmath/numbers.rs:1-18 | the list starts with 2, even when the limit is below 2 (2 is pushed before the loop); p is in it exactly when p is 2 or an odd prime no larger than the limit |
| Numbers.PrimeListAscending | src/gmath/numbers.rs:5-18 | the list is strictly ascending |
| Numbers.GetPrimesNumber | src/gmath/numbers.rs:1-19 | the while loop over odd candidates, with the inner trial-division loop and its early break, returns exactly PrimeList(limit) |
| Numbers.TrialDivisionDecides | src/gmath/numbers.rs:6-12 | an odd candidate c ≥ 3 is prime exactly when no element of the list built so far divides it |
| Numbers.TrialLoopDecides | src/gmath/numbers.rs:6-15 | after the inner loop the flag says whether the candidate is prime, and pushing it exactly when it is extends the list to PrimeList(c) |
| Numbers.Isqrt | src/gmath/numbers.rs:31 | `(n as f64).sqrt() as u32` is the floor of the square root: r² ≤ n < (r+1)² |
| Numbers.IsPrime | src/gmath/numbers.rs:21-37 | as written: a true answer is a prime; false below 2 and for even numbers above 2 |
| Numbers.IsPrimeOnlyTwo | src/gmath/numbers.rs:21-37 | as written, is_prime(n) holds exactly when n = 2: the list reaches only ⌊√n⌋+1 < n, so it never contains an odd n ≥ 3 |
| Numbers.IsPrimeFixed | src/gmath/numbers.rs:21-37 | corrected is_prime (trial division by the listed primes): true exactly for primes |
| Numbers.IsPrimeFixedCorrect | src/gmath/numbers.rs:31-35 | for odd n ≥ 3, no listed prime up to ⌊√n⌋+1 divides n exactly when n is prime |
| Numbers.TrialDivideFacts | src/gmath/numbers.rs:42-47 | the divide-while-divisible loop: the factors times the remaining cofactor give n; every factor is a candidate; no remaining candidate divides the cofactor |
| Numbers.TrialDivideSorted | src/gmath/numbers.rs:42-47 | with ascending candidates the factors come out non-decreasing |
| Numbers.Factorize | src/gmath/numbers.rs:39-49 | for n ≥ 1 the loop returns Factors(n); n = 0 is excluded because the loop never ends |
| Numbers.FactorsCorrect | src/gmath/numbers.rs:39-49 | the factors are primes ≤ ⌊√n⌋+1 in non-decreasing order; their product times the dropped cofactor is n; the cofactor is 1 or a single prime above ⌊√n⌋+1 |
| Numbers.LeftoverIsPrime | src/gmath/numbers.rs:41-47 | a divisor of n with no prime factor up to ⌊√n⌋+1 is 1 or a prime above that bound |
| Numbers.FactorizeExamples | src/gmath/numbers.rs:39-49 | factorize(1) = [] and factorize(12) = [2, 2, 3]; factorize(7) = [] and factorize(14) = [2], dropping the cofactor 7 |
| Numbers.FactorizeCompleteExamples | src/gmath/numbers.rs:39-49 | factorize(2) = [2] and factorize(6) = [2, 3], with nothing dropped |
| Numbers.FactorsOfSevenAndFourteen | src/gmath/numbers.rs:39-49 | the factor lists of 7 and 14 for a size held in a variable: [] and [2] |
| Numbers.FactorizeFixed | src/gmath/numbers.rs:39-49 | corrected factorize (the cofactor appended): non-decreasing primes whose product is n |
| Numbers.AppendCofactor | src/gmath/numbers.rs:42-48 | appending a prime cofactor above every factor completes a sorted prime factorisation |
| Numbers.Gcd | src/gmath/numbers.rs:51-56 | gcd(a, 0) = a; the result divides a and b, and every common divisor divides it; the recursion ends because b decreases |
| Numbers.Lcm | src/gmath/numbers.rs:58-60 | on u32: overflow exactly when a·b exceeds the u32 range; division by zero exactly for lcm(0, 0); otherwise lcm·gcd = a·b and both a and b divide the result |
| Numbers.LcmFacts | src/gmath/numbers.rs:58-60 | (a·b)/g is a common multiple of a and b when g divides both |
| ComplexNumbers.New | src/gmath/complex.rs:36-46 | `real()` and `imag()` of `new(re, im)` are re and im |
| ComplexNumbers.Real | src/gmath/complex.rs:40-42 | `real()` reads the real part; with Imag it rebuilds the value through New (NewFromParts) |
| ComplexNumbers.Imag | src/gmath/complex.rs:44-46 | `imag()` reads the imaginary part; New and NewFromParts state the round trip |
| ComplexNumbers.I | src/gmath/complex.rs:60-62 | `i()` = (0, 1); ISquared states i·i = −one() |
| ComplexNumbers.Zero | src/gmath/complex.rs:65-68 | `zero()` = (0, 0); IsZero recognises exactly it, and ZeroIdentity makes it the additive identity |
| ComplexNumbers.One | src/gmath/complex.rs:75-78 | `one()` = (1, 0); IsOne recognises exactly it, and OneIdentity makes it the multiplicative identity |
| ComplexNumbers.Add | src/gmath/complex.rs:85-91 | part-by-part `+` (AddComponentwise); AddCommutative and AddAssociative state its laws |
| ComplexNumbers.Sub | src/gmath/complex.rs:100-106 | part-by-part `-` (AddComponentwise); SubIsAddNeg makes it a + (−b) and the inverse of Add |
| ComplexNumbers.Neg | src/gmath/complex.rs:155-160 | negates both parts; ZeroIdentity states a + (−a) = zero() |
| ComplexNumbers.Mul | src/gmath/complex.rs:115-124 | (ac − bd, ad + bc); MulCommutative, MulAssociative, MulDistributesOverAdd, OneIdentity and MulConjugate state its laws |
| ComplexNumbers.Div | src/gmath/complex.rs:134-144 | requires re² + im² ≠ 0 (see Left out); the conjugate quotient, which DivMulCancel and MulDivCancel make the inverse of Mul |
| ComplexNumbers.NewFromParts | src/gmath/complex.rs:36-46 | a value is rebuilt exactly from its real and imaginary parts |
| ComplexNumbers.Conjugate | src/gmath/complex.rs:56-58 | the conjugate keeps the real part and negates the imaginary part |
| ComplexNumbers.ConjugateInvolution | src/gmath/complex.rs:56-58 | conjugating twice gives the value back |
| ComplexNumbers.FromReal | src/gmath/complex.rs:163-167 | `From<T>` gives imaginary part 0 and the value as real part |
| ComplexNumbers.IsZero | src/gmath/complex.rs:65-73 | is_zero holds exactly for zero(), i.e. both parts 0 |
| ComplexNumbers.IsOne | src/gmath/complex.rs:75-83 | is_one holds exactly for one(): real part 1, imaginary part 0 |
| ComplexNumbers.AddComponentwise | src/gmath/complex.rs:85-106 | `+` and `-` act on each part separately |
| ComplexNumbers.AddCommutative | src/gmath/complex.rs:85-91 | a + b = b + a |
| ComplexNumbers.AddAssociative | src/gmath/complex.rs:85-91 | (a + b) + c = a + (b + c) |
| ComplexNumbers.SubIsAddNeg | src/gmath/complex.rs:100-106 | a − b = a + (−b) with `neg`, and (a − b) + b = a |
| ComplexNumbers.ZeroIdentity | src/gmath/complex.rs:65-68 | zero() is a two-sided additive identity and a + (−a) = zero() |
| ComplexNumbers.OneIdentity | src/gmath/complex.rs:75-78 | one() is a two-sided multiplicative identity |
| ComplexNumbers.ISquared | src/gmath/complex.rs:60-62 | i()·i() = −one() |
| ComplexNumbers.MulCommutative | src/gmath/complex.rs:115-124 | (ac − bd, ad + bc) is commutative |
| ComplexNumbers.MulAssociative | src/gmath/complex.rs:115-124 | multiplication is associative |
| ComplexNumbers.MulDistributesOverAdd | src/gmath/complex.rs:115-124 | multiplication distributes over addition |
| ComplexNumbers.MulConjugate | src/gmath/complex.rs:115-124 | z·conjugate(z) has imaginary part 0 and real part re² + im² |
| ComplexNumbers.DivMulCancel | src/gmath/complex.rs:134-144 | (a / b)·b = a when re² + im² of b is nonzero |
| ComplexNumbers.MulDivCancel | src/gmath/complex.rs:134-144 | (a·b) / b = a when re² + im² of b is nonzero |
| ComplexNumbers.ComplexVar.constructor | src/gmath/complex.rs:14-18 | the new mutable place holds the given value |
| ComplexNumbers.ComplexVar.AddAssign | src/gmath/complex.rs:93-98 | after `+=` the place holds old + other; only its two parts change |
| ComplexNumbers.ComplexVar.SubAssign | src/gmath/complex.rs:108-113 | after `-=` the place holds old − other |
| ComplexNumbers.ComplexVar.MulAssign | src/gmath/complex.rs:125-132 | after `*=` the place holds old · other: the new real part is kept aside until the imaginary part is computed from the old parts |
| ComplexNumbers.ComplexVar.DivAssign | src/gmath/complex.rs:145-153 | after `/=` the place holds old / other |
| Fourier.Dft | src/signal_processing/fourier.rs:4-19 | the double loop returns one value per input; value k is Σ x[t]·w(k·t, n, forward), unscaled, so no input gives no output |
| Fourier.Idft | src/signal_processing/fourier.rs:21-37 | the double loop returns one value per input; value k is the positive-sign sum divided by n once |
| Fourier.CoreSpec | src/signal_processing/fourier.rs:50-61 | fft_core returns the single value signal[start] when size = 1 or no factors remain, and otherwise, when it succeeds, exactly size values |
| Fourier.FftCore | src/signal_processing/fourier.rs:39-74 | the recursion with its two loops returns CoreSpec, including its panics |
| Fourier.Chunks | src/signal_processing/fourier.rs:56-60 | the sub-transform loop yields one result per chunk |
| Fourier.ChunksFailureSticks | src/signal_processing/fourier.rs:57-60 | once a sub-transform panics, the whole loop has panicked |
| Fourier.SubTransforms | src/signal_processing/fourier.rs:56-60 | the push loop: sub-transform i starts at start + i·step with stride step·factors[0] and size size/factors[0] |
| Fourier.Combine | src/signal_processing/fourier.rs:61-72 | the combining double loop equals CombineSpec: output k sums chunks[i][k % chunk_size]·w(k·i, size) over all i, or panics on a short chunk |
| Fourier.AccumulateOutput | src/signal_processing/fourier.rs:67-71 | the inner loop for one k either panics on a chunk shorter than needed or stores that output's full sum |
| Fourier.CombineFails | src/signal_processing/fourier.rs:67-71 | a chunk shorter than min(size, chunk_size) makes the combination index out of bounds |
| Fourier.SortDescending | src/signal_processing/fourier.rs:86 | the factors sorted largest first, by insertion; SortDescendingCorrect states it is a non-increasing permutation |
| Fourier.SortDescendingCorrect | src/signal_processing/fourier.rs:86 | `sort_unstable_by(\|a, b\| b.cmp(a))`: a permutation of the factors in non-increasing order |
| Fourier.Truncate | src/signal_processing/fourier.rs:85 | `fft_size as u32` is below 2³², leaves sizes below 2³² unchanged, and is 0 only for size 0 or a size of at least 2³² |
| Fourier.FftSpec | src/signal_processing/fourier.rs:76-89 | fft returns size values, or one value when the plan collapses to a leaf |
| Fourier.IfftSpec | src/signal_processing/fourier.rs:91-109 | a successful ifft returns exactly size values |
| Fourier.Fft | src/signal_processing/fourier.rs:76-89 | factorize, sort descending, recurse: equals FftSpec |
| Fourier.Ifft | src/signal_processing/fourier.rs:91-109 | the same with the positive sign, then the in-place division loop, which panics when the recursion returned fewer than size values: equals IfftSpec |
| Fourier.RowPass | src/signal_processing/fourier.rs:120-123 | the row loop produces one row per row index |
| Fourier.ColumnOf | src/signal_processing/fourier.rs:126 | collecting column j succeeds exactly when every row has an entry j, and then holds those entries |
| Fourier.WriteColumn | src/signal_processing/fourier.rs:128-130 | writing a transformed column succeeds exactly when it has at least rows values; it changes only column j |
| Fourier.ForwardColumns | src/signal_processing/fourier.rs:125-131 | fft2's column pass keeps the number of rows and their lengths |
| Fourier.ForwardColumn | src/signal_processing/fourier.rs:126-130 | one column step keeps the number of rows and their lengths |
| Fourier.InverseColumns | src/signal_processing/fourier.rs:143-152 | ifft2's column pass fills a rows × cols grid |
| Fourier.InverseColumn | src/signal_processing/fourier.rs:147-151 | one column step keeps the number of rows and their lengths |
| Fourier.RowPassFailureSticks | src/signal_processing/fourier.rs:120-123 | a row that panics ends the row pass with that failure |
| Fourier.ForwardColumnsFailureSticks | src/signal_processing/fourier.rs:125-131 | a column that panics ends fft2's column pass with that failure |
| Fourier.InverseColumnsFailureSticks | src/signal_processing/fourier.rs:146-152 | a column that panics ends ifft2's column pass with that failure |
| Fourier.StoreColumn | src/signal_processing/fourier.rs:128-130 | the in-place write loop equals WriteColumn |
| Fourier.Fft2 | src/signal_processing/fourier.rs:111-134 | the method equals Fft2Spec: the size default evaluated eagerly, then every row, then every column |
| Fourier.Ifft2 | src/signal_processing/fourier.rs:136-158 | the method equals Ifft2Spec: the size default evaluated eagerly, then every column into a zero grid, then every row |
| Fourier.TransformRows | src/signal_processing/fourier.rs:120-123 | the row loop, which panics on a missing row, equals RowPass |
| Fourier.TransformColumnsInPlace | src/signal_processing/fourier.rs:125-131 | fft2's column loop equals ForwardColumns |
| Fourier.InvertColumns | src/signal_processing/fourier.rs:146-152 | ifft2's column loop over the zero grid equals InverseColumns |
| Fourier.ForwardColumnStep | src/signal_processing/fourier.rs:126-130 | one iteration of fft2's column loop equals ForwardColumn |
| Fourier.InverseColumnStep | src/signal_processing/fourier.rs:147-151 | one iteration of ifft2's column loop equals InverseColumn |
| FourierLaws.CoreReadsOnlyLeaves | src/signal_processing/fourier.rs:50-60 | fft_core reads the signal only at its leaves: signals that agree there give the same outcome |
| FourierLaws.ChunksReadOnlyLeaves | src/signal_processing/fourier.rs:57-60 | the same for the first count sub-transforms |
| FourierLaws.ReversalBelow | src/signal_processing/fourier.rs:53-60 | the digit reversal of a place below size is below size |
| FourierLaws.UnreversalBelow | src/signal_processing/fourier.rs:53-60 | so is its inverse |
| FourierLaws.ReversalOfUnreversal | src/signal_processing/fourier.rs:53-60 | digit reversal undoes its inverse below size |
| FourierLaws.UnreversalOfReversal | src/signal_processing/fourier.rs:53-60 | the inverse undoes digit reversal below size |
| FourierLaws.LeavesAt | src/signal_processing/fourier.rs:50-60 | with factors multiplying to size there are size leaves, and leaf q reads start + Reversal(q)·step |
| FourierLaws.LeavesUpToAt | src/signal_processing/fourier.rs:57-60 | the first count sub-transforms hold count·(size/factors[0]) leaves, each in its reversed place |
| FourierLaws.LastChunkLeaf | src/signal_processing/fourier.rs:57-60 | sub-transform i starts at start + i·step with stride step·factors[0], placing its leaves after those of the earlier chunks |
| FourierLaws.LeavesPartition | src/signal_processing/fourier.rs:53-60 | when the factors multiply to size, the leaves read each position start + m·step with m < size, at the place given by the inverse digit reversal, and (for a positive step) no position twice |
| FourierLaws.CompletePlanSucceeds | src/signal_processing/fourier.rs:39-74 | a plan whose factors multiply to size, over a signal holding every position it reads, succeeds with size values |
| FourierLaws.ChunksSucceed | src/signal_processing/fourier.rs:56-60 | then every sub-transform succeeds with size/factors[0] values |
| FourierLaws.ProductOfSorted | src/signal_processing/fourier.rs:86 | sorting the factors keeps their product |
| FourierLaws.PlanIsComplete | src/signal_processing/fourier.rs:85-86 | when factorize drops no cofactor, the sorted plan multiplies to the size |
| FourierLaws.TransformsSucceedOnCompleteSizes | src/signal_processing/fourier.rs:76-109 | then fft and ifft of a long enough signal succeed with size values |
| FourierLaws.SixPointTransforms | src/signal_processing/fourier.rs:196-217 | the 6-point signal of the tests: fft and ifft both return 6 values |
| FourierLaws.PrimeLengthCollapses | src/signal_processing/fourier.rs:76-109 | at length 7 factorize returns no factor: fft returns only signal[0], and ifft panics dividing the missing values |
| FourierLaws.IfftOfShortCore | src/signal_processing/fourier.rs:105-107 | ifft panics whenever the recursion returned fewer than size values |
| FourierLaws.Length14Panics | src/signal_processing/fourier.rs:66-72 | at length 14 the plan is [2], both chunks are single values, and `chunks[i][k % 7]` is out of bounds: fft and ifft panic |
| FourierLaws.SingleFactorPlanPanics | src/signal_processing/fourier.rs:50-72 | the one-factor plan [p] for a size n with n / p ≥ 2 panics: every chunk is a single value, and the combination reads chunk[k % (n / p)] |
| FourierLaws.SingleFactorChunks | src/signal_processing/fourier.rs:56-60 | with one factor the sub-transforms are leaves: chunk i is [signal[start + i·step]] |
| FourierLaws.NoZeroPadding | src/signal_processing/fourier.rs:83-88 | asking for 2 values from a 1-value signal reads past its end and panics instead of zero padding |
| FourierLaws.EmptySignalDiverges | src/signal_processing/fourier.rs:83-85 | an empty signal without a size asks for factorize(0), which never returns |
| FourierLaws.IfftScalesOnce | src/signal_processing/fourier.rs:103-107 | every output of ifft times n is the matching output of the unscaled recursion: the division by n happens once, at the outer level |
| FourierLaws.IdftScalesOnce | src/signal_processing/fourier.rs:29-35 | output k of idft times n is the unscaled positive-sign sum |
| FourierLaws.ButterflyFlipped | src/signal_processing/fourier.rs:62-71 | one inverse butterfly is the forward butterfly with the twiddle's sign flipped |
| FourierLaws.CombineFlipped | src/signal_processing/fourier.rs:61-72 | the same for the whole combination |
| FourierLaws.CoreFlipped | src/signal_processing/fourier.rs:39-74 | the two directions of fft_core differ only in the sign of the rotation factor |
| FourierLaws.ChunksFlipped | src/signal_processing/fourier.rs:57-60 | the same for the sub-transforms |
| FourierLaws.IfftIsScaledFlippedFft | src/signal_processing/fourier.rs:91-109 | ifft is fft with the flipped twiddle followed by one division by n |
| FourierLaws.DftSumFlipped | src/signal_processing/fourier.rs:29-33 | idft's sum is dft's sum with the flipped twiddle |
| FourierLaws.RowPassSucceeds | src/signal_processing/fourier.rs:120-123 | the row pass succeeds exactly when every row exists and transforms |
| FourierLaws.RowPassRows | src/signal_processing/fourier.rs:120-123 | row i of the row pass is the transform of row i |
| FourierLaws.ColumnUntouched | src/signal_processing/fourier.rs:125-131 | a column whose entries are unchanged reads as before |
| FourierLaws.ForwardColumnsHold | src/signal_processing/fourier.rs:125-131 | after fft2's column pass each done column holds the fft of that column of the row-transformed grid; the other entries are unchanged |
| FourierLaws.ForwardColumnsComplete | src/signal_processing/fourier.rs:125-131 | the column pass succeeds when every column transforms to at least rows values |
| FourierLaws.ForwardColumnsSucceed | src/signal_processing/fourier.rs:125-131 | and only then |
| FourierLaws.InverseColumnsHold | src/signal_processing/fourier.rs:143-152 | after ifft2's column pass each done column holds the ifft of that input column; later columns are still zero |
| FourierLaws.InverseColumnStep | src/signal_processing/fourier.rs:147-151 | one column step keeps the columns already done and the zeros beyond |
| FourierLaws.InverseColumnsComplete | src/signal_processing/fourier.rs:146-152 | the column pass succeeds when every input column inverts to at least rows values |
| FourierLaws.InverseColumnsSucceed | src/signal_processing/fourier.rs:146-152 | and only then |
| FourierLaws.Fft2RowsThenColumns | src/signal_processing/fourier.rs:111-134 | a successful fft2 is rows × cols: each row of the input is transformed first, then each column of that result |
| FourierLaws.RowLength | src/signal_processing/fourier.rs:120-123 | a transformed row long enough for the column pass has exactly cols values |
| FourierLaws.Ifft2ColumnsThenRows | src/signal_processing/fourier.rs:136-158 | a successful ifft2 is rows × cols: each column of the input is inverted first, then each row of that result |
| FourierAgreement.TwiddleCombine | src/signal_processing/fourier.rs:58-70 | the twiddle of term j in chunk i (angle (k mod m)·j / m), times the combination's twiddle k·i / size, is the twiddle of place i + p·j in the whole size-point transform |
| FourierAgreement.TermCombine | src/signal_processing/fourier.rs:58-70 | term j of chunk i, which reads start + i·step with stride step·p, times the combination twiddle, is term i + p·j of the whole transform |
| FourierAgreement.CombineIsDft | src/signal_processing/fourier.rs:61-72 | when every chunk i holds the direct transform of its interleaved sub-signal, output k of the combination loop is output k of the direct transform of the whole |
| FourierAgreement.ButterflyRow | src/signal_processing/fourier.rs:67-71 | the summand of chunk i in output k is the sum of the whole transform's terms at places i + p·j |
| FourierAgreement.CombineAll | src/signal_processing/fourier.rs:61-72 | over such chunks the combination succeeds with size values, each the direct transform's output |
| FourierAgreement.ChunkValues | src/signal_processing/fourier.rs:56-60 | chunk i of the sub-transform loop is the recursion started at start + i·step with stride step·factors[0] |
| FourierAgreement.CoreBase | src/signal_processing/fourier.rs:50-52 | a one-point transform returns the single value read |
| FourierAgreement.CoreIsDft | src/signal_processing/fourier.rs:39-74 | with factors multiplying to size and every position read inside the signal, fft_core succeeds, and output k is Σ_t x[start + t·step]·w(k·t, size) over t < size: the direct transform, unscaled |
| FourierAgreement.FftIsDft | src/signal_processing/fourier.rs:76-109 | when factorize drops no cofactor of the size n, fft equals dft of the first n values and ifft equals idft of them |
| FourierAgreement.SixPointAgreement | src/signal_processing/fourier.rs:196-210 | the 6-point signal of the tests: fft equals dft, and ifft equals idft |
| Statistics.Average | src/gmath/statistics.rs:2-14 | zero for no data, otherwise the value whose product with the count is the sum |
| Statistics.SquareMean | src/gmath/statistics.rs:16-26 | zero for no data, otherwise Σx² over the count |
| Statistics.HarmonicMean | src/gmath/statistics.rs:28-39 | zero for no data; fails exactly when a value is zero or Σ1/x is zero; otherwise count over Σ1/x |
| Statistics.Variance | src/gmath/statistics.rs:53-64 | zero for no data, otherwise Σ(x − mean)² over the count (population, not count − 1) |
| Statistics.SumBounds | src/gmath/statistics.rs:12 | the sum lies between count·lo and count·hi |
| Statistics.AverageBounds | src/gmath/statistics.rs:2-14 | the mean lies between the least and the greatest value |
| Statistics.DeviationsNonNegative | src/gmath/statistics.rs:62 | the sum of squared deviations is not negative |
| Statistics.DeviationsExpand | src/gmath/statistics.rs:62 | Σ(x − m)² = Σx² − 2m·Σx + n·m² |
| Statistics.VarianceIsSquareMeanLessSquaredMean | src/gmath/statistics.rs:53-64 | variance = square_mean − average² |
| Statistics.VarianceScaled | src/gmath/statistics.rs:53-64 | n·variance = Σx² − n·mean² |
| Statistics.DeviationsAtMean | src/gmath/statistics.rs:61-62 | around the mean, Σ(x − m)² = Σx² − n·m² |
| Statistics.VarianceNonNegative | src/gmath/statistics.rs:53-64 | the variance is not negative |
| Statistics.DeviationsOfConstant | src/gmath/statistics.rs:62 | values all equal to m have no squared deviation from m |
| Statistics.SumOfConstant | src/gmath/statistics.rs:12 | n equal values sum to n times the value |
| Statistics.VarianceOfConstant | src/gmath/statistics.rs:53-64 | equal values have that value as mean and variance zero |
| Statistics.ReciprocalsAbove | src/gmath/statistics.rs:37 | for values in [lo, hi] with lo > 0, n ≤ Σ(1/x)·hi |
| Statistics.ReciprocalsBelow | src/gmath/statistics.rs:37 | and Σ(1/x)·lo ≤ n |
| Statistics.HarmonicMeanBounds | src/gmath/statistics.rs:28-39 | for positive values the harmonic mean exists and lies between the least and the greatest value |
| Statistics.Median | src/gmath/statistics.rs:74-89 | zero for no data; otherwise the caller's array ends sorted and a permutation of its old contents, and the result is the middle value (odd count) or the mean of the two middle values (even count) |
| Statistics.SortInPlace | src/gmath/statistics.rs:82 | the sort leaves the array sorted and a permutation of its old contents |
| Statistics.InsertInPlace | src/gmath/statistics.rs:82 | one insertion step extends the sorted prefix by one and keeps the contents |
| Statistics.SortedUnique | src/gmath/statistics.rs:82 | two sorted arrangements of the same values are equal, so any correct sort gives this result |
| Statistics.MedianOrderFree | src/gmath/statistics.rs:82-88 | the median depends only on the values, not on their original order |
| Statistics.MedianSplits | src/gmath/statistics.rs:83-88 | the lower half of the sorted values is at most the median and the upper half at least |
| Statistics.Mode | src/gmath/statistics.rs:91-107 | the result holds each value of maximal count exactly once and nothing else; no data gives no modes |
| Statistics.CountOccurrences | src/gmath/statistics.rs:97-100 | the counting loop maps exactly the values of the data, each to its number of occurrences |
| Statistics.MaxCount | src/gmath/statistics.rs:102 | `max().unwrap_or(0)`: an upper bound of the counts that is one of them, or 0 for an empty map |
| Statistics.KeysWithCount | src/gmath/statistics.rs:103-106 | the filter keeps exactly the keys with that count, each once |
| Statistics.ModesExist | src/gmath/statistics.rs:91-107 | nonempty data has a mode, and all modes occur equally often |
| Statistics.MostFrequent | src/gmath/statistics.rs:102 | a value among the first count entries that occurs in the whole data at least as often as each of those entries |
| Statistics.Unique | src/gmath/statistics.rs:109-117 | the filter through `seen.insert` returns UniqueOf(data) |
| Statistics.UniqueKeepsFirstOccurrences | src/gmath/statistics.rs:109-117 | the result has no duplicates, holds every value of the data, and keeps them in the order of their first occurrences |
| Statistics.UniqueOfDistinct | src/gmath/statistics.rs:116 | data without duplicates comes back unchanged |
| Statistics.UniqueIdempotent | src/gmath/statistics.rs:109-117 | applying unique twice is applying it once |
| Vectors.RoundTrips | src/gmath/vector.rs:13-31 | to_vec(from_slice(s)) = s, size is the number of elements, and rebuilding a vector from its data gives it back |
| Vectors.Dot | src/gmath/vector.rs:45-58 | panics exactly on a length mismatch; otherwise Σ a[i]·b[i] accumulated from zero, first index first |
| Vectors.Mul | src/gmath/vector.rs:60-66 | keeps the length and multiplies every element by the scalar |
| Vectors.Div | src/gmath/vector.rs:68-78 | panics exactly when the scalar is zero; otherwise keeps the length and divides every element |
| Vectors.Add | src/gmath/vector.rs:81-95 | panics exactly on a length mismatch; otherwise result[i] = a[i] + b[i] at the same length |
| Vectors.Sub | src/gmath/vector.rs:97-111 | panics exactly on a length mismatch; otherwise result[i] = a[i] − b[i] at the same length |
| Vectors.DotSymmetric | src/gmath/vector.rs:45-58 | dot is symmetric, including its failure |
| Vectors.DotSumSymmetric | src/gmath/vector.rs:53-56 | the accumulated sum is symmetric |
| Vectors.DotAdditive | src/gmath/vector.rs:45-95 | dot distributes over vector addition |
| Vectors.DotSumAdditive | src/gmath/vector.rs:53-56 | the accumulated sum distributes over element-wise addition |
| Vectors.DotHomogeneous | src/gmath/vector.rs:45-66 | scaling one side by c scales the dot product by c |
| Vectors.DotSumHomogeneous | src/gmath/vector.rs:53-56 | the same for the accumulated sum |
| Vectors.DivUndoesMul | src/gmath/vector.rs:60-78 | dividing by a nonzero scalar undoes multiplying by it |
| Vectors.SubUndoesAdd | src/gmath/vector.rs:81-111 | subtracting what was added gives the vector back |
| Vectors.AddCommutative | src/gmath/vector.rs:81-95 | addition commutes, including its failure |
| Matrices.Filled | src/gmath/matrix.rs:51-64 | `vec![vec![x; cols]; rows]` has rows rows of cols copies of x |
| Matrices.Matrix.constructor | src/gmath/matrix.rs:14-30 | `new` keeps the data, records the shape (none without rows, else rows × length of row 0) and leaves every cache empty |
| Matrices.Matrix.FromSlice | src/gmath/matrix.rs:32-34 | a new matrix over a copy of the rows |
| Matrices.Matrix.ToVec | src/gmath/matrix.rs:36-38 | `to_vec` returns the rows the matrix holds; the constructor and FromSlice keep the rows they are given, so to_vec gives them back |
| Matrices.Matrix.Size | src/gmath/matrix.rs:40-42 | `size()` counts the rows and the length of row 0, or 0 without rows; SquareIffShape states it equals the recorded shape when there are rows |
| Matrices.Matrix.IsSquare | src/gmath/matrix.rs:44-49 | reads the recorded shape, false without one; SquareIffShape states is_square ⟺ rows > 0 and rows = length of row 0 |
| Matrices.Matrix.Zeros | src/gmath/matrix.rs:51-57 | a new rows × cols matrix of zeros |
| Matrices.Matrix.Ones | src/gmath/matrix.rs:58-64 | a new rows × cols matrix of ones |
| Matrices.Matrix.Identity | src/gmath/matrix.rs:66-75 | a new size × size identity matrix |
| Matrices.IdentityRows | src/gmath/matrix.rs:70-73 | the diagonal-writing loop yields one on the diagonal and zero elsewhere |
| Matrices.Matrix.Transpose | src/gmath/matrix.rs:77-91 | a filled cache is returned as a new matrix, whatever the rows are now; otherwise the push loop panics on a row longer than row 0 or returns the transpose and stores it in the cache; no other field changes |
| Matrices.Matrix.Determinant | src/gmath/matrix.rs:93-102 | always panics: with "not square" exactly when is_square fails, otherwise at `unimplemented!` |
| Matrices.SquareIffShape | src/gmath/matrix.rs:40-49 | with the shape describing the data, is_square holds exactly when there are rows and as many columns in row 0; size() then equals the shape |
| Matrices.FilledShape | src/gmath/matrix.rs:51-64 | zeros and ones have shape rows × cols, or none without rows |
| Matrices.IdentityFacts | src/gmath/matrix.rs:66-75 | the identity is n × n with one on the diagonal and zero elsewhere, and has no shape for n = 0 |
| Matrices.ColumnOfRectangular | src/gmath/matrix.rs:81-86 | over rows of equal length, column i collects entry i of every row in order |
| Matrices.TransposeRectangular | src/gmath/matrix.rs:81-88 | over rows of equal length the transpose succeeds, swaps the dimensions and has t[i][j] = data[j][i] |
| Matrices.TransposeInvolution | src/gmath/matrix.rs:77-91 | transposing a nonempty rectangular matrix twice gives it back |
| Matrices.TransposeIdentity | src/gmath/matrix.rs:66-91 | the identity is its own transpose |
| Matrices.RaggedRows | src/gmath/matrix.rs:81-85 | rows shorter than row 0 are skipped, so [[1, 2], [3]] transposes to [[1, 3], [2]]; a row longer than row 0 panics, as in [[1], [2, 3]] |

## Left out

- Floating point in `complex.rs` and `fourier.rs`: all values are exact `real`s. The model
  has no rounding and no NaN or infinity, and no 1e-10 tolerances from the tests.
- ComplexNumbers.Div: requires a divisor with nonzero re² + im². The source divides
  without a check and yields NaN components in floating point. The same holds for
  `ComplexVar.DivAssign`.
- Statistics.HarmonicMean: returns `Err(DivisionByZero)` for a zero value or a zero sum of
  reciprocals. With `usize`, the only standard type the bound admits (next line), both cases
  panic on a division by zero, which that failure matches.
- Statistics.VarianceOfConstant: proves only that equal values give zero variance. The
  converse, that zero variance forces equal values, is not proved. It needs reasoning about
  sums of squares of reals that the solver does not complete.
- The transcendental and square-root parts of `complex.rs` are not modelled:
  - `magnitude`, `phase`, `from_polar`, `to_polar`, `abs`, `sqrt`, `powi`, `powf`;
  - `exp`, `ln`, `log`;
  - the trigonometric and hyperbolic functions and their `a`-prefixed forms;
  - `Display` and `Debug`.
- The twiddle factor is a parameter, not cos/sin. That fft equals dft and ifft equals idft
  is proved for every twiddle that obeys the root-of-unity laws of `FourierAgreement`
  (`FourierAgreement.FftIsDft`). That `from_polar` obeys them is not proved, because it
  needs cos and sin. That ifft inverts fft, which the tests check numerically, is not proved
  either. It needs one more law: the n-th roots of unity other than one sum to zero.
- `Vector::norm`, `geometric_mean` and `standard_deviation` are not modelled: they need
  `sqrt` or a fractional `pow`.
- The statistics functions in `statistics.rs` other than `mode` and `unique` require
  `T: From<usize>`. No floating-point type meets that bound (`f64` and `f32` convert only
  from narrower integers), and `Complex<T>` needs `T: Float`; the only standard instance is
  `usize`. The model describes the generic algebra over exact `real`s. With `usize`:
  - `/` truncates in `average`, `square_mean` and `median` (the `/ T::from(2)` of two middle
    values);
  - `x - avg` in `variance` underflows, a panic in debug builds, for any value below the
    mean;
  - `T::one() / x` in `harmonic_mean` panics for x = 0 and is 0 for every x ≥ 2, so `n / sum`
    panics unless some value is 1;
  - `partial_cmp().unwrap()` in `median` cannot panic.
- Statistics.Mode: the source's result order comes from `HashMap` iteration and is
  unspecified. The contract states only which values occur, each once.
- Statistics.SortInPlace: `sort_by` is a library merge sort. It is modelled as an
  insertion sort. Over reals, any sort gives the same result (`Statistics.SortedUnique`).
- `sort_unstable_by` in `fft`/`ifft` is likewise modelled by an insertion sort
  (`Fourier.SortDescending`).
- Numbers.GetPrimesNumber: `counter += 2` is not wrapped at 2³². The source's `u32`
  counter would overflow for a limit within 2 of the `u32` maximum. `is_prime` and
  `factorize` only ask for limits up to 65 536.
- Numbers.Factorize: requires n ≥ 1, because `factorize(0)` never returns. The transforms
  report that case as the failure `Diverges`.
- `usize` overflow of `start + i * step` and of `step * chunk_number` in `fft_core` is
  not modelled.
- `Matrix`: the `rank`, `determinant`, `plu_decomposition`, `inverse` and `trace` cache
  fields exist, but nothing in the source fills them, and nothing in the model does either.
- Matrices.Matrix.Transpose: the data's fields are public in the source and can change
  between calls. The model covers this by returning the cached value whatever the rows are
  now. It does not model aliasing between the returned matrix and the cache, because Rust
  clones them.
- The files outside the six modelled ones are not part of this model:
  - `src/processor/` (parameter registry, logging, process plumbing);
  - `src/utils/geo_reference.rs` (geodesy in floating point);
  - `src/signal_processing/statistical_filter.rs` (empty stubs).

## Findings

| source | as written | input that shows it | evidently intended | confidence | as-written member | corrected member |
|---|---|---|---|---|---|---|
| src/gmath/numbers.rs:31-36 | is_prime asks whether n occurs in the primes up to ⌊√n⌋+1, which is below n for n ≥ 3 | is_prime(7) is false | trial division: n is prime when no listed prime up to ⌊√n⌋+1 below n divides it | high (proved; not executed) | Numbers.IsPrimeOnlyTwo | Numbers.IsPrimeFixed |
| src/gmath/numbers.rs:41-48 | factorize divides only by primes up to ⌊√n⌋+1 and drops the remaining cofactor | factorize(7) = [] and factorize(14) = [2]; fft of 14 values then panics | the cofactor, a prime, is appended, so the factors multiply to n | high (proved; not executed) | Numbers.FactorizeExamples | Numbers.FactorizeFixed |

The transforms keep the as-written `factorize`, because that is what `fft` and `ifft` call.
`FourierLaws.Length14Panics` and `FourierLaws.PrimeLengthCollapses` show the effect.
`FourierLaws.TransformsSucceedOnCompleteSizes` states what holds when no cofactor is
dropped, which is every size with the corrected `factorize`.
