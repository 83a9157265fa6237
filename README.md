# Shamir secret reconstruction by Gaussian elimination — a Dafny model

The modelled program takes shares `(x, y)` of a hidden polynomial and
reconstructs its constant term, the secret. Each share's `y` arrives as a
numeral string in some radix. The program decodes every share with
`new BigInteger(value, base)`. It rejects the test case when there are fewer
than `k` points. Otherwise it gives the first `k` points to
`solveUsingGaussianElimination`, which:

1. builds the Vandermonde system `matrix[i][j] = x_i^j`, `results[i] = y_i`;
2. divides each pivot row by its pivot, using truncating `BigInteger.divide`;
3. clears the column below the pivot;
4. back-substitutes and returns `solution[0]`.

Modules, leaves first:

- `Types`: the `Point` share, the exceptions the program can raise (as an `Error` datatype) and a `Result`.
- `Arith`: exact `Pow`, the truncating division `TDiv` of `BigInteger.divide`, and dot products with their algebra.
- `Numerals`: the radix decoder, proved against a positional-value definition and against an encoder.
- `LinearSystem`: the solver's data as values. It covers the system built from the points, one elimination step (`Step`), the whole elimination (`Run`), back substitution, and the returned value (`Secret`). Lemmas state triangular form, frames, failure on a zero pivot, and that back substitution solves the reduced system.
- `Interpolation`: the round trip. If the shares lie on a polynomial and every pivot division is exact, the returned value is the constant term. The module also holds the corrected solver `SecretChecked`.
- `Gauss`: `solveUsingGaussianElimination` as the source runs it. It uses an `array2<int>` matrix and `array<int>` vectors, updated in place by nested loops. Each method is proved to compute the `LinearSystem` functions.
- `SecretSharing`: `processTestCase` without the file and JSON I/O. It decodes shares in order, checks the threshold, selects the first `k` points and solves.

The code does not perform an exact solve, one that never returns a truncated value. The model follows the code as written:

- Rows are divided by the pivot with truncating integer division, not exact rational arithmetic.
- There is no row swapping. A zero pivot raises `ArithmeticException`, which is `ZeroPivot` here.
- There is no separate singular-system or reconstruction error.
- The decoder accepts one leading `+` or `-`, as `BigInteger` does.

The round-trip theorem needs no distinct-`x` assumption. Its exactness hypothesis already implies that every pivot is nonzero.

## Model

| member | source | states |
|---|---|---|
| `Numerals.Decode` | ja/ShamirSecretSharing.java:40 | Succeeds iff the radix is in 2..36 and, after one optional sign, at least one character remains and all are digits of the radix. A bad radix gives `RadixOutOfRange`; no digits gives `ZeroLength`; a character that is not a digit of the radix gives `IllegalDigit`. The value is the sign times the positional value of the digits. |
| `Numerals.HornerIsPositional` | ja/ShamirSecretSharing.java:40 | Accumulating digits most-significant first (Horner) gives the sum of digit × radix^(digits after it). |
| `Numerals.HornerHead` | ja/ShamirSecretSharing.java:40 | The leading digit of an n-digit numeral contributes digit × radix^(n-1). |
| `Numerals.PositionalBounds` | ja/ShamirSecretSharing.java:40 | An n-digit numeral denotes a value in `0 .. radix^n - 1`: no overflow and no negative value without a sign. |
| `Numerals.NumeralDigits` | ja/ShamirSecretSharing.java:40 | The encoder's digit string is non-empty, uses only digits of the radix, and reads back as the encoded value. |
| `Numerals.DecodeEncode` | ja/ShamirSecretSharing.java:40 | Decoding inverts encoding, for every radix in 2..36 and every integer, negative ones included. |
| `Numerals.DecodeHexExample` | ja/ShamirSecretSharing.java:40 | `"1a"` in radix 16 is 26. |
| `Numerals.DecodeBinaryExample` | ja/ShamirSecretSharing.java:40 | `"101"` in radix 2 is 5. |
| `Numerals.DecodeBase36Example` | ja/ShamirSecretSharing.java:40 | `"z"` and `"Z"` in radix 36 are 35. |
| `Numerals.DecodeSignedExample` | ja/ShamirSecretSharing.java:40 | `"-42"` in radix 10 is -42. |
| `Numerals.DecodeRejections` | ja/ShamirSecretSharing.java:40 | `"2"` in radix 2, a lone sign, the empty string and radix 37 are errors. |
| `Arith.Pow` | ja/ShamirSecretSharing.java:69 | The exact power x^j that stands in for `Math.pow(x, j)`: x^0 is 1 for every x, 0 included; 0^j is 0 for j > 0; a nonzero base gives a nonzero power, and a positive base a positive one. |
| `Arith.TDiv` | ja/ShamirSecretSharing.java:81-83 | The quotient is rounded toward zero: its magnitude is the floor of abs(a)/abs(b), and it is positive only when the signs agree and negative only when they differ. |
| `Arith.ExactIffDivides` | ja/ShamirSecretSharing.java:81-83 | A truncating division loses nothing exactly when the divisor divides the dividend. |
| `LinearSystem.Vandermonde` | ja/ShamirSecretSharing.java:57-74 | The system built from n points is n×n with an n-entry right-hand side. |
| `LinearSystem.Step` | ja/ShamirSecretSharing.java:77-93 | Elimination step i keeps the system square and leaves rows 0..i-1 and their results unchanged. |
| `LinearSystem.StepEntries` | ja/ShamirSecretSharing.java:79-92 | Step i's row i is the old row divided (truncating) by the pivot, and `results[i]` likewise. Each lower row j is the old row minus its old column-i entry times the new row i, and `results[j]` likewise. |
| `LinearSystem.Run` | ja/ShamirSecretSharing.java:77-93 | The state after t steps, when no zero pivot stopped it, is still a square system of the same size. |
| `LinearSystem.CheckedRun` | ja/ShamirSecretSharing.java:79-83 | The elimination that stops at the first inexact division stays square and of the same size. |
| `LinearSystem.BackSubFrom` | ja/ShamirSecretSharing.java:95-102 | Back substitution from row i yields the n-i entries `solution[i..]`. |
| `LinearSystem.RowsFinal` | ja/ShamirSecretSharing.java:77-93 | After t steps, rows 0..t-1 and their results never change again in later steps. |
| `LinearSystem.ZeroPivotFails` | ja/ShamirSecretSharing.java:79-83 | If the pivot is zero when step i is reached, the whole elimination fails with `ZeroPivot(i)` and returns no value. |
| `LinearSystem.FailureIsZeroPivot` | ja/ShamirSecretSharing.java:77-93 | The elimination fails only through a zero pivot, at a step it reached with that pivot zero. |
| `LinearSystem.StepEchelon` | ja/ShamirSecretSharing.java:79-92 | A step turns unit upper-triangular form in the first i columns into that form in the first i+1. |
| `LinearSystem.RunEchelon` | ja/ShamirSecretSharing.java:77-93 | After t steps the first t columns have ones on the diagonal and zeros below. |
| `LinearSystem.EliminationTriangular` | ja/ShamirSecretSharing.java:77-93 | A completed elimination leaves `matrix[i][i] = 1` and `matrix[j][i] = 0` for every `j > i`. |
| `LinearSystem.CheckedAgrees` | ja/ShamirSecretSharing.java:79-83 | When every division is exact, the checked elimination and the source's elimination give the same system. |
| `LinearSystem.CheckedStepsExact` | ja/ShamirSecretSharing.java:79-83 | A successful checked elimination had, at every step, a nonzero pivot that divides its row and its result exactly. |
| `LinearSystem.BackSubSuffix` | ja/ShamirSecretSharing.java:97-102 | The back-substituted vector from row i on is the result of back substitution started at row i. |
| `LinearSystem.BackSubReduced` | ja/ShamirSecretSharing.java:95-102 | For every i, `solution[i] + Σ_{j>i} matrix[i][j]·solution[j] = results[i]`. |
| `LinearSystem.BackSubSolves` | ja/ShamirSecretSharing.java:95-102 | On a unit upper-triangular system, every row times the solution equals its result. |
| `LinearSystem.BackSubUnique` | ja/ShamirSecretSharing.java:95-105 | On a unit upper-triangular system, any c with row·c = d·result for every row is d times the back-substituted vector. |
| `LinearSystem.Secret` | ja/ShamirSecretSharing.java:56-106 | With no points the solver fails on `solution[0]` (`EmptySystem`). It answers iff there are points and the elimination meets no zero pivot. Any other failure is a zero pivot at a step below the number of points. |
| `Interpolation.EvalIsPowersDot` | ja/ShamirSecretSharing.java:68-70 | The row of powers of x times the coefficients is the polynomial's value at x. |
| `Interpolation.VandermondeSatisfies` | ja/ShamirSecretSharing.java:62-74 | If the points lie on polynomial c/d, then c solves the built system scaled by d. |
| `Interpolation.ExactStepPreserves` | ja/ShamirSecretSharing.java:79-92 | An exact elimination step keeps every solution of the system. |
| `Interpolation.PivotRowKeeps` | ja/ShamirSecretSharing.java:80-83 | Exactly dividing row i and `results[i]` by the pivot keeps row i's equation. |
| `Interpolation.EliminatedRowKeeps` | ja/ShamirSecretSharing.java:86-92 | Subtracting factor × (normalised row i) from a lower row and its result keeps that row's equation. |
| `Interpolation.CheckedRunSatisfies` | ja/ShamirSecretSharing.java:77-93 | Every solution of the initial system survives an elimination whose divisions are all exact. |
| `Interpolation.RoundTrip` | ja/ShamirSecretSharing.java:56-105 | Suppose the points satisfy d·y_i = Σ c_j x_i^j and every pivot division is exact. Then the solver succeeds and d times its answer is c_0. For d = 1 it returns c_0. |
| `Interpolation.SecretChecked` | ja/ShamirSecretSharing.java:79-83 | The corrected solver answers iff there are points and every division is exact, and then gives the source's answer. |
| `Interpolation.SecretCheckedCorrect` | ja/ShamirSecretSharing.java:56-105 | Whenever the corrected solver answers v, d·v = c_0 for every polynomial c/d through the points. |
| `Interpolation.TruncationLosesSecret` | ja/ShamirSecretSharing.java:81-83 | Shares (2,2) and (4,3) lie on 1 + x/2. The source's solver answers 2, not the constant term 1. The corrected solver reports `Inexact(1)`. |
| `Gauss.BuildSystem` | ja/ShamirSecretSharing.java:57-74 | Allocates an n×n matrix and an n-vector with `matrix[i,j] = x_i^j` and `results[i] = y_i`. |
| `Gauss.DivideRow` | ja/ShamirSecretSharing.java:80-82 | Row i becomes the old row divided (truncating) by the pivot; every other row is unchanged. |
| `Gauss.SubtractRow` | ja/ShamirSecretSharing.java:88-90 | Row j becomes old row j minus factor × old row i; every other row is unchanged. |
| `Gauss.EliminationStep` | ja/ShamirSecretSharing.java:79-92 | In place, the arrays go from holding a system to holding its elimination step i. |
| `Gauss.Eliminate` | ja/ShamirSecretSharing.java:77-93 | In place, the arrays end up holding the eliminated system, which is unit upper triangular, or the method reports the zero pivot that stops it. |
| `Gauss.BackSubstitute` | ja/ShamirSecretSharing.java:95-102 | The descending loop fills a fresh `solution` equal to the back-substituted vector. |
| `Gauss.SolveUsingGaussianElimination` | ja/ShamirSecretSharing.java:56-106 | Returns exactly `LinearSystem.Secret(points)`: `solution[0]`, a zero-pivot failure, or the out-of-bounds failure for no points. |
| `SecretSharing.DecodeShare` | ja/ShamirSecretSharing.java:40 | A share's y-coordinate decodes iff its base is in 2..36 and its value, after one optional sign, is a non-empty string of digits of that base. The decoded value is the sign times the positional value of the digits. |
| `SecretSharing.DecodeAll` | ja/ShamirSecretSharing.java:33-43 | Decoding succeeds iff every share decodes. Point i is then `(x_i, decoded y_i)`, and there is one point per share, in order. |
| `SecretSharing.DecodeErrorIsFirst` | ja/ShamirSecretSharing.java:34-43 | A failed decoding reports the error of the first share that does not decode. |
| `SecretSharing.DecodeErrorSticks` | ja/ShamirSecretSharing.java:34-43 | Once a prefix of the shares fails to decode, every longer prefix fails with the same error. |
| `SecretSharing.SelectPoints` | ja/ShamirSecretSharing.java:46-51 | Fewer than k points gives `InsufficientPoints`, and a negative k gives `NegativeThreshold`. Otherwise the result is exactly the first k points, in their order. |
| `SecretSharing.OnlyFirstKMatter` | ja/ShamirSecretSharing.java:46-51 | Two fully decodable test cases that agree on their first k shares yield the same result. |
| `SecretSharing.TestCaseSecret` | ja/ShamirSecretSharing.java:23-53 | A share that does not decode aborts the test case with its error. Otherwise, a k larger than the number of shares gives `InsufficientPoints` and a negative k gives `NegativeThreshold`, else the result is the solver's answer on the first k decoded points. An answer implies 0 < k <= number of shares and that every share decoded. |
| `SecretSharing.ProcessTestCase` | ja/ShamirSecretSharing.java:23-53 | Decodes the shares in a loop, checks the threshold and solves the first k, giving exactly `TestCaseSecret(shares, k)`. |

## Left out

- Reading the JSON file, the `JSONObject` API, `main` and every `System.out` line (lines 8-20, 25-31, 52, 109-118) are I/O and a foreign library. Decoded shares arrive as a `Share` sequence, and the answer is returned instead of printed.
- The order in which `jsonData.keySet()` enumerates keys is unspecified (a hash map), so the share order is an input.
- The `n` key is read at line 29 and never used; it is not modelled.
- `Integer.parseInt` of the JSON key and its 32-bit range (line 37) are not modelled: `x` is a given integer.
- Gauss.BuildSystem: stores the exact power x^j instead of `(long) Math.pow(x, j)`. The rounding of large powers to a double and the saturating cast to `long` (which clamps to `Long.MAX_VALUE` or `Long.MIN_VALUE`) are not modelled.
- Numerals.Decode: accepts only ASCII digits and letters. `Character.digit` also accepts other Unicode digit characters, which are not modelled.
- The exceptions are values of `Error`; their messages and stack traces are not modelled.
- Interpolation.RoundTrip: requires every division to be exact. The model does not prove that distinct `x` values and an integer-coefficient polynomial always make the divisions exact, nor that a repeated `x` always produces a zero pivot.

## Findings

| source | as written | input that shows it | evidently intended | confidence | as-written member | corrected member |
|---|---|---|---|---|---|---|
| ja/ShamirSecretSharing.java:81-83 | Row i and `results[i]` are divided by the pivot with truncating `BigInteger.divide`, so a remainder is silently dropped | k = 2, shares (2, 2) and (4, 3): they lie on 1 + x/2, whose constant term is 1; `results[1]` becomes 1/2 = 0 and the method returns 2 | An exact solve, which refuses (or represents exactly) a division with a remainder and never returns a value that is not the interpolating polynomial's constant term | medium; not executed | `Interpolation.TruncationLosesSecret` | `Interpolation.SecretChecked` |
