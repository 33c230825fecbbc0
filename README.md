# equation-solver in Dafny

A model of the Go package `equationsolver`. The package solves linear,
quadratic and cubic equations written as text, such as `x^3+2x^2+x+1=0`.
The model follows the package's pipeline stage by stage:

- **validation** (`ValidateEquation`): an equation needs an '=' and must not
  hold `**`, `^^`, `//` or `xx`. The first check that fails picks the message.
- **normalisation** (`replaceEquation`): every sign after the first character
  gets a ';' before it, and '=' gets one after it as well.
- **splitting and balancing** (`splitEquation`, `changeSign`): the text is cut
  at ';'. Variable terms and constants are collected, and every term right of
  '=' has its sign flipped.
- **bucketing** (`separatePowers`): variable terms are sorted by degree. The
  substring tests run in the order "x^3", "x^2", "x".
- **summation** (`sumVariableValues`, `sumConstantValues`): coefficients and
  constants are parsed and summed.
- **solving** (`createSamplePolynom`, `evaluatePolynomDeg`,
  `solveLinearEquation`, `solveQuadraticEquation`, `solveCubicEquation`):
  dispatch goes to the highest non-zero coefficient.
- **coercion** (`complexToReal`): complex roots whose imaginary part is zero
  are moved to the real list.
- **the entry points** `SolvePolynom` and `EvaluateEquation`.

The model keeps the source's form. The loops of `replaceEquation`,
`splitEquation`, `separatePowers`, the two sums and `complexToReal` are
methods with loop invariants. Each is proved equal to a specification
function, and the lemmas about those functions carry the properties. The
pure parts are functions with contracts.

Numbers are idealised: `float64` is `real` and `complex128` is a pair of
reals. Three foreign computations are parameters:

- `strconv.ParseFloat` is a `Parser`. A failed parse counts as 0, as in the
  source.
- `math.Sqrt` is a `Sqrt`. The lemmas about correct roots assume it is an
  exact square root (`GenuineSqrt`).
- The Cardano and trigonometric branch of `solveCubicEquation` is a
  `CubicFormula`. That branch is taken only when the constant term is
  non-zero.

Modules:

- `Text`: the few `strings` functions the package uses.
- `Types`: `Polynom`, `EquationSolution` and the messages.
- `Normalizer`, `Splitter`, `Powers`, `Coefficients`, `Coercion`, `Solver`,
  `Equation`: one module per stage above.

The code does not always do what its names and comments suggest; the model
follows the code:

- The two real roots of a quadratic come `-sqrt` branch first
  (internal_functions.go:183-184). They are in ascending order only when
  the quadratic coefficient is positive; see `Solver.SolveQuadraticOrder`.
- A bare `-x^2` or `-x^3` term is not in the rewrite table of
  `sumVariableValues` (internal_functions.go:103-113), so its coefficient
  text is "-". That fails to parse, so the term contributes 0, not -1; see
  `Coefficients.BareNegativePowersAddNothing`.
- When every coefficient is zero, `evaluatePolynomDeg` returns both the real
  root 0 and the complex root 0 (internal_functions.go:155-159). After
  coercion that is the real root 0 twice; see `Solver.SolvePolynom`.
- `ValidateEquation` looks for the '=' first (equation.go:50-52). The test
  inputs with a doubled sign have no '=' either, so each one is rejected
  with the missing-equal-sign message, not the message for its doubled
  sign; see `Equation.ValidateEquationCases`.

Two defects are listed under Findings: the cubic shortcut for a zero
constant term and the coercion loop. `Solver.EvaluatePolynomDeg`,
`Solver.SolvePolynom` and `Equation.EvaluateEquation` are built on the
corrected members (`Solver.SolveCubic`, `Coercion.ComplexToReal`). The
program as written is composed end to end by
`Solver.EvaluatePolynomDegAsWritten`, `Solver.SolvePolynomAsWritten` and
`Equation.EvaluateEquationAsWritten`.

## Model

| member | source | states |
|---|---|---|
| Normalizer.IsSign | internal_functions.go:12-19 | a string is a sign exactly when it is the one character '+', '-' or '=' |
| Normalizer.IsSignCases | internal_functions_test.go:9-21 | "+", "-" and "=" are signs, "/" is not |
| Normalizer.ReplaceEquation | internal_functions.go:24-37 | the accumulator loop produces exactly the per-character rewrite of the whole input |
| Normalizer.ReplacedPrefixGrows | internal_functions.go:25-35 | the accumulated output only grows: the output after m characters is a prefix of the output after n ≥ m |
| Normalizer.ReplacedLayout | internal_functions.go:26-34 | where each input character lands: a sign after index 0 is preceded by ';', an '=' after index 0 is also followed by ';', anything else is copied |
| Normalizer.DeleteRestores | internal_functions.go:24-37 | round trip: for an input without ';', deleting every ';' from the output gives the input back |
| Normalizer.NeverStartsWithMark | internal_functions.go:27 | the first character is never marked, so the output starts with ';' only if the input does |
| Normalizer.ReplacedExample | internal_functions_test.go:23-28 | "x^3+2x^2+x+1=0" becomes "x^3;+2x^2;+x;+1;=;0" |
| Text.Split | internal_functions.go:42 | a split has at least one piece and no piece holds the separator |
| Text.JoinSplit | internal_functions.go:42 | joining the pieces of a split with the separator gives the text back |
| Text.SplitJoin | internal_functions.go:42 | splitting a join of separator-free pieces gives the pieces back |
| Text.FirstPieceIsPrefix | internal_functions.go:113 | the first piece of a split is the prefix before the first separator |
| Text.ReplaceAll | internal_functions.go:63 | every occurrence of one character is replaced and nothing else changes |
| Text.SubstringCharIn | internal_functions.go:82-86 | every character of a pattern found in a text occurs in the text |
| Text.HasSubstringAt | equation.go:46-49 | a pattern is found exactly when it is the slice of the text at some position |
| Text.PairNotAdjacent | equation.go:46-49 | a two-character pattern occurs only where its characters stand side by side |
| Splitter.ChangeSign | internal_functions.go:60-72 | flag clear gives ""; otherwise a value with '+' has every '+' turned into '-', else a value with '-' has every '-' turned into '+', else '-' is prefixed; 'x' and '=' are kept |
| Splitter.ChangeSignTwice | internal_functions.go:60-72 | flipping twice restores a value with one kind of sign and gives "+" before an unsigned value |
| Splitter.Marker | internal_functions.go:50-51 | the first piece holding '=' and no 'x': every earlier piece is not a marker |
| Splitter.XTermsExact | internal_functions.go:48-49 | a value is among the collected variable terms if and only if it is one of the pieces and holds 'x' |
| Splitter.ConstTermsExact | internal_functions.go:52-53 | a value is among the collected constants if and only if it is one of the pieces and holds neither 'x' nor '=' |
| Splitter.SplitEquation | internal_functions.go:40-57 | the two lists are the 'x' pieces and the other non-'=' pieces, in order, with every piece after the first '=' marker sign-flipped |
| Splitter.SplitExample | internal_functions.go:40-57 | "x^2;+3;=;1" splits into the variable list ["x^2"] and the constants ["+3", "-1"] |
| Splitter.SidedExample | internal_functions.go:44-46 | only the piece after the '=' marker is flipped |
| Splitter.SortFour | internal_functions.go:47-54 | a variable term, a constant, the marker and a constant sort into one variable term and the two constants, in order |
| Splitter.SortedExample | internal_functions.go:47-54 | which balanced pieces go to which list |
| Powers.Degree | internal_functions.go:81-88 | the bucket of a term is 3 iff it holds "x^3", 2 iff it holds "x^2" but not "x^3", 0 iff it holds no 'x' |
| Powers.Bucket | internal_functions.go:79-91 | a bucket holds only input terms of its degree |
| Powers.SeparatePowers | internal_functions.go:79-91 | the three lists are the degree-1, degree-2 and degree-3 buckets, each in input order |
| Powers.BucketsPartition | internal_functions.go:79-91 | together the three buckets are exactly the terms holding 'x', with multiplicity |
| Powers.LowerBucketsExcludeHigherPowers | internal_functions.go:81-87 | the first bucket has no "x^2" or "x^3" term and the second no "x^3" term |
| Coefficients.CoefficientText | internal_functions.go:103-113 | the bare forms give "1" (or "-1" for "-x"); any other term gives its x-free prefix, which is followed by 'x' |
| Coefficients.CoefficientBeforeX | internal_functions.go:113 | outside the rewrite table, the coefficient text of c·"x"·rest is c |
| Coefficients.CoefficientTextCases | internal_functions.go:103-113 | "4x" gives "4", "-2x" gives "-2" and "+3x^2" gives "+3" |
| Coefficients.BareNegativeCoefficients | internal_functions.go:103-113 | "-x^2" and "-x^3" are not rewritten, so their coefficient text is "-" |
| Coefficients.BareNegativePowersAddNothing | internal_functions.go:103-113 | when "-" does not parse, adding a bare "-x^2" or "-x^3" term leaves the sum unchanged |
| Coefficients.SumVariableValues | internal_functions.go:100-120 | the result is the sum of the parsed coefficients of all terms, with failed parses as 0 |
| Coefficients.SumConstantValues | internal_functions.go:123-129 | the result is the sum of the parsed constants, with failed parses as 0 |
| Coefficients.TotalAppend | internal_functions.go:116-118 | the sum of a concatenation is the sum of the sums |
| Coefficients.SumsAppend | internal_functions.go:100-129 | both sums are additive over concatenated term lists |
| Coefficients.SumExample | internal_functions.go:93-99 | the documented example: x, +3x and -5x sum to -1 |
| Coercion.ComplexToReal | internal_functions.go:249-264 | intended coercion: the real parts of the zero-imaginary roots are appended in order, the complex list is exactly the non-real roots in their order, the total count is kept, and so is the error text |
| Coercion.ZeroImagPartsExact | internal_functions.go:252-254 | a value is appended to the reals if and only if some root with zero imaginary part has it as real part |
| Coercion.NonZeroImagExact | internal_functions.go:251-261 | a root stays complex if and only if it is one of the roots and its imaginary part is not zero |
| Coercion.ComplexToRealIdempotent | internal_functions.go:249-264 | coercing twice is the same as coercing once |
| Coercion.AsWrittenProvenance | internal_functions.go:250-264 | as written: existing reals are kept as a prefix, every appended real is the real part of a zero-imaginary root, and complex roots are only dropped |
| Coercion.ComplexToRealAsWritten | internal_functions.go:250-264 | the ranging loop over the shared, shifting array computes exactly the closed form `AsWrittenCoercion` |
| Coercion.ShiftLeft | internal_functions.go:255 | `append(s[:i], s[i+1:]...)` in place: later live entries move left one place and the rest of the array is unchanged |
| Coercion.AsWrittenKeepsAllComplex | internal_functions.go:250-264 | with no zero-imaginary root the loop changes nothing |
| Coercion.AsWrittenAgreesOnShortLists | internal_functions.go:250-264 | on at most two roots the loop as written equals the intended coercion |
| Coercion.AsWrittenAgreesOnConjugatePair | internal_functions.go:250-264 | on a real root followed by a non-real pair the loop as written equals the intended coercion |
| Coercion.AsWrittenThreeReals | internal_functions.go:250-264 | on three real roots r0, r1, r2 the loop as written reports r0, r2, r2 and no complex root |
| Coercion.AsWrittenLosesARoot | internal_functions.go:250-264 | on three real roots with r1 ≠ r2 the loop as written differs from the intended coercion, which reports r0, r1, r2 |
| Solver.CreateSamplePolynom | internal_functions.go:132-139 | the polynomial built evaluates to a·x³ + b·x² + c·x + d everywhere |
| Solver.SolveLinear | internal_functions.go:164-166 | the result is a root of C·x + D |
| Solver.SolveQuadratic | internal_functions.go:169-189 | a negative discriminant gives exactly a conjugate complex pair with real part -C/2B; otherwise two real roots adding up to -C/B; never an error |
| Solver.RealRootOfQuadratic | internal_functions.go:183-184 | (-C ± s)/2B is a zero of the quadratic when s² is the discriminant |
| Solver.ComplexRootOfQuadratic | internal_functions.go:175-177 | -C/2B ± i·t/2B is a complex zero of the quadratic when t² is minus the discriminant |
| Solver.RealRootsOfQuadratic | internal_functions.go:183-187 | with a real discriminant and an exact square root, both roots are zeros and they multiply to D/B |
| Solver.ComplexRootsOfQuadratic | internal_functions.go:174-181 | with a negative discriminant and an exact square root, both complex roots are zeros and are not real |
| Solver.RootProduct | internal_functions.go:183-184 | the two real roots multiply to D/B |
| Solver.SolveQuadraticRoots | internal_functions.go:169-189 | with an exact square root every reported root is a zero of B·x² + C·x + D |
| Solver.SolveQuadraticOrder | internal_functions.go:183-184 | the roots are ascending when B > 0 and descending when B < 0 |
| Solver.QuadFactor | internal_functions.go:199-200 | without a constant term the cubic is x times the quadratic a·x² + b·x + c |
| Solver.ShortcutTriple | internal_functions.go:201-208 | how the D = 0 shortcut turns the quadratic's answer into three roots, 0 first |
| Solver.SolveCubic | internal_functions.go:194-209 | corrected shortcut: for D = 0 the roots are 0 and a pair adding up to -b/a, real when the factor's discriminant is non-negative, conjugate otherwise; for D ≠ 0 the Cardano branch |
| Solver.SolveCubicShortcutRoots | internal_functions.go:199-208 | with an exact square root, every real root of the corrected shortcut is a root of the cubic and every other root is a complex zero of its quadratic factor |
| Solver.SolveCubicAsWritten | internal_functions.go:199-209 | as written, for D = 0 and sqrt(0) = 0 all three roots are 0 |
| Solver.ShortcutMissesRoot | internal_functions.go:200 | x³ + 2x² + x has the root -1; the shortcut as written reports 0, 0, 0 and the corrected one reports 0, -1, -1 |
| Solver.EvaluatePolynomDeg | internal_functions.go:141-161 | cubic: three complex roots; quadratic: exactly the answer of `SolveQuadratic`, two roots, real iff the discriminant is non-negative; linear: one real root that solves the equation; all zero: 0 and 0i with the missing-variable message, the only case with an error |
| Solver.SolvePolynom | internal_functions.go:267-269 | no complex root left is real, the root count is the degree (2 when all coefficients are zero), and the error text is kept |
| Solver.EvaluatePolynomDegAsWritten | internal_functions.go:141-161 | the dispatch as written: a cubic gives three complex roots and no error; it is the corrected dispatch except on a cubic with D = 0 |
| Solver.AsWrittenDefinedWhen | internal_functions.go:174-181 | with a square root positive on positive inputs, the complex pair of a quadratic is never real, so the coercion loop as written stays in bounds |
| Solver.GenuineSqrtIsPositive | internal_functions.go:175 | an exact square root is positive on positive inputs |
| Solver.SolvePolynomAsWritten | internal_functions.go:267-269 | the program as written equals the corrected pipeline below degree 3, and reports 0 three times on a cubic with D = 0 |
| Solver.SolvePolynomMissesRoot | internal_functions.go:267-269 | end to end on x³ + 2x² + x the program as written reports 0, 0, 0 and the corrected pipeline 0, -1, -1 |
| Solver.SolvePolynomRoots | internal_functions.go:267-269 | with an exact square root, outside the Cardano branch, every real root reported solves the equation |
| Types.ValidationErrorsDistinct | types.go:17-23 | the five messages are pairwise distinct |
| Types.ValidationErrorsPrefixed | types.go:17-23 | every message starts with "Error: " |
| Types.ValidationErrorsNotOthers | types.go:17-23 | no message is empty and none is the missing-variable message |
| Equation.ValidateEquation | equation.go:44-63 | "" iff there is an '=' and no "**", "^^", "//" or "xx"; otherwise the message of the first failing check, in that order |
| Equation.ValidateEquationCases | equation_test.go:7-28 | the five test inputs are rejected for their missing '=' |
| Equation.ValidateEquationAccepts | equation.go:44-63 | "x^2+3=1" has an '=' and no doubled sign, so it is accepted |
| Equation.EvaluateEquation | equation.go:70-84 | a rejected equation gives its message and no roots; an accepted one gives the roots of the polynomial built from its terms |
| Equation.EvaluateEquationAsWritten | equation.go:70-84 | the same as `EvaluateEquation`, but the accepted equation gets the answer of the program as written |
| Equation.BuildPolynom | equation.go:75-81 | the stage methods together build the polynomial of the equation's terms |
| Equation.AcceptedHasNoValidationError | equation.go:70-84 | the answer for an accepted equation never carries a validation message |
| Equation.ReplacedSmallExample | internal_functions.go:24-37 | "x^2+3=1" is normalised to "x^2;+3;=;1" |
| Equation.PolynomOfSmallExample | equation.go:75-81 | "x^2+3=1" builds the polynomial x² + 2 |
| Equation.BucketsOfSquare | internal_functions.go:79-91 | the single term "x^2" sits in the degree-2 bucket only |
| Equation.CoefficientSquare | internal_functions.go:100-120 | the bucket ["x^2"] sums to 1 |
| Equation.ConstantsExample | internal_functions.go:123-129 | the constants ["+3", "-1"] sum to 2 |
| Equation.SolveSmallExample | internal_functions.go:174-181 | x² + 2 has no real root and the pair ±i·sqrt(8)/2 |

## Left out

- The print in `EvaluateEquation` (equation.go:72) is left out because it is output only.
- `strconv.ParseFloat` is a parameter. Its grammar and its range errors (±Inf) are not modelled; only success or failure is.
- `math.Sqrt` is a parameter. Root correctness is proved for an exact square root, not for rounded `float64` results.
- The Cardano and trigonometric branch of `solveCubicEquation` (internal_functions.go:210-225) is not modelled; nor is `depressedCubic` (internal_functions.go:231-247). Both are replaced by the `CubicFormula` parameter, so nothing is proved about cubic roots when the constant term is non-zero.
- `float64` semantics (rounding, NaN, ±Inf, signed zero) are not modelled, since numbers are reals.
- Solver.SolveLinear: requires C ≠ 0, because with C = 0 the source divides by zero and gets ±Inf or NaN, which reals cannot express. The dispatch only calls it with C ≠ 0.
- Solver.SolveQuadratic: requires its leading coefficient to be non-zero, for the same reason. The dispatch only calls it that way.
- Solver.SolveCubicAsWritten: requires c ≠ 0 on the D = 0 path, because the source divides 0 by 2c there and gets NaN.
- Coercion.ComplexToRealAsWritten: requires that the list is not exactly two roots with zero imaginary part. On that input the source takes `s[2:]` of a one-element slice and panics. The solver never produces such a list.
- Coercion.ComplexToRealAsWritten: the `[]complex128{}` assignment is modelled as a live length of 0. No later iteration writes to the array, so the aliasing it breaks is not observable.
- Coercion.ComplexToRealAsWritten: the source shifts the caller's own backing array in place (internal_functions.go:255); the model copies the roots into a fresh array first. Both callers pass a temporary (internal_functions.go:268, equation.go:82), so no caller can observe the difference.
- Nil and empty slices are not distinguished.
- Strings are sequences of characters. The byte-wise scan of `replaceEquation` is exact only for ASCII input.
- Solver.EvaluatePolynomDeg: its cubic branch uses the corrected `Solver.SolveCubic`, not the shortcut as written (see Findings). For x³ + 2x² + x it gives 0, -1, -1 where the source gives 0, 0, 0. `Solver.EvaluatePolynomDegAsWritten` models the source's dispatch.
- Solver.SolvePolynom: uses the corrected `Coercion.ComplexToReal` and `Solver.SolveCubic` (see Findings). `Solver.SolvePolynomAsWritten` models the program as written.
- Equation.EvaluateEquation: uses the corrected pipeline of `Solver.SolvePolynom` (see Findings). `Equation.EvaluateEquationAsWritten` models the program as written.
- Solver.EvaluatePolynomDegAsWritten: requires c ≠ 0 on a cubic with D = 0, for the NaN reason given for `Solver.SolveCubicAsWritten`.
- Solver.SolvePolynomAsWritten: requires `Solver.AsWrittenDefined`, which excludes the NaN division of the shortcut and the out-of-range slice of the coercion loop. `Solver.AsWrittenDefinedWhen` shows that the slice stays in range for a square root that is positive on positive inputs.
- Equation.EvaluateEquationAsWritten: requires `Solver.AsWrittenDefined` for the polynomial of an accepted equation, for the same reasons.

## Findings

| source | as written | input that shows it | evidently intended | confidence | as-written member | corrected member |
|---|---|---|---|---|---|---|
| internal_functions.go:200 | the D = 0 shortcut passes `Polynom{A: b, B: c, C: d}`; the quadratic solver reads B, C, D, so it solves c·x² = 0 | x³ + 2x² + x = 0 has the root -1, but the roots reported are 0, 0, 0 (`Solver.ShortcutMissesRoot`) | solve the factor a·x² + b·x + c, giving 0, -1, -1 | high, not executed | Solver.SolveCubicAsWritten | Solver.SolveCubic |
| internal_functions.go:250-264 | entries are removed from the slice being ranged over, so later iterations read shifted entries, and a removal after index 1 empties the whole list | complex roots 1, 2, 3 (all with zero imaginary part) become the reals 1, 3, 3 (`Coercion.AsWrittenThreeReals`, `Coercion.AsWrittenLosesARoot`) | move every zero-imaginary root to the reals once, keep the rest | high, not executed | Coercion.ComplexToRealAsWritten | Coercion.ComplexToReal |
