/**
 * The solver (`createSamplePolynom`, `evaluatePolynomDeg`,
 * `solveLinearEquation`, `solveQuadraticEquation`, the `d == 0` shortcut of
 * `solveCubicEquation`, `SolvePolynom`). `math.Sqrt` is a parameter; the
 * Cardano and trigonometric branch of the cubic solver, used when the
 * constant term is non-zero, is a parameter too.
 */
module Solver {
  import opened Types
  import opened Coercion

  /** `math.Sqrt`. */
  type Sqrt = real -> real

  /** The Cardano / trigonometric branch of `solveCubicEquation`, taken when D is non-zero. */
  type CubicFormula = Polynom -> (Complex, Complex, Complex)

  /** The complex number 0. */
  const ComplexZero: Complex := Complex(0.0, 0.0)

  /** A square root that is exact on the non-negative reals. */
  ghost predicate GenuineSqrt(sqrt: Sqrt)
  {
    forall y :: 0.0 <= y ==> 0.0 <= sqrt(y) && sqrt(y) * sqrt(y) == y
  }

  /** A square root that is positive on the positive reals. */
  ghost predicate PositiveSqrt(sqrt: Sqrt)
  {
    forall y :: 0.0 < y ==> 0.0 < sqrt(y)
  }

  /** `createSamplePolynom`: the polynomial a·x³ + b·x² + c·x + d. */
  function CreateSamplePolynom(a: real, b: real, c: real, d: real): (p: Polynom)
    ensures forall x :: Eval(p, x) == a * x * x * x + b * x * x + c * x + d
  {
    Polynom(a, b, c, d)
  }

  /** `solveLinearEquation`: the root of C·x + D, i.e. -(D / C). */
  function SolveLinear(p: Polynom): (r: real)
    requires p.c != 0.0
    ensures p.c * r + p.d == 0.0
    ensures p.a == 0.0 && p.b == 0.0 ==> Eval(p, r) == 0.0
  {
    (p.d / p.c) * -1.0
  }

  /** The quadratic B·x² + C·x + D that `solveQuadraticEquation` reads (A is ignored). */
  function QuadEval(p: Polynom, x: real): real
  {
    p.b * x * x + p.c * x + p.d
  }

  /** The same quadratic at a complex point. */
  function QuadEvalComplex(p: Polynom, z: Complex): Complex
  {
    Complex(p.b * (z.re * z.re - z.im * z.im) + p.c * z.re + p.d,
            2.0 * p.b * z.re * z.im + p.c * z.im)
  }

  /** The discriminant C² - 4·B·D. */
  function Discriminant(p: Polynom): real
  {
    p.c * p.c - 4.0 * p.b * p.d
  }

  /**
   * `solveQuadraticEquation` on B·x² + C·x + D: a negative discriminant
   * gives a complex pair and no real root, any other gives two real roots
   * and no complex one. Either way the two roots add up to -C / B (they are
   * the roots of a quadratic whose leading coefficient is B), and the complex
   * pair is conjugate, the negative imaginary part first.
   */
  function SolveQuadratic(p: Polynom, sqrt: Sqrt): (s: EquationSolution)
    requires p.b != 0.0
    ensures s.errorDescription == ""
    ensures Discriminant(p) < 0.0 <==> s.realSolutions == []
    ensures Discriminant(p) < 0.0 ==>
      |s.complexSolutions| == 2
      && s.complexSolutions[0].re == s.complexSolutions[1].re == -p.c / (2.0 * p.b)
      && s.complexSolutions[0].im == -s.complexSolutions[1].im
    ensures Discriminant(p) >= 0.0 ==>
      s.complexSolutions == [] && |s.realSolutions| == 2
      && s.realSolutions[0] + s.realSolutions[1] == -p.c / p.b
  {
    var a, b, c := p.b, p.c, p.d;
    var delta := Discriminant(p);
    if delta < 0.0 then
      var deltaToUse := sqrt(-delta);
      var x1 := Complex(-b / (2.0 * a), -deltaToUse / (2.0 * a));
      var x2 := Complex(-b / (2.0 * a), deltaToUse / (2.0 * a));
      EquationSolution([], [x1, x2], "")
    else
      var x1 := (-b - sqrt(delta)) / (2.0 * a);
      var x2 := (-b + sqrt(delta)) / (2.0 * a);
      RootSum(a, b, sqrt(delta));
      EquationSolution([x1, x2], [], "")
  }

  /** Vieta's sum for the two roots (-b -+ r) / (2·a). */
  lemma RootSum(a: real, b: real, r: real)
    requires a != 0.0
    ensures (-b - r) / (2.0 * a) + (-b + r) / (2.0 * a) == -b / a
  {
    assert (-b - r) / (2.0 * a) + (-b + r) / (2.0 * a) == (-2.0 * b) / (2.0 * a);
  }

  /** A product with a non-zero factor is zero only when the other factor is. */
  lemma CancelFactor(k: real, x: real)
    requires k != 0.0 && k * x == 0.0
    ensures x == 0.0
  {
  }

  /** (-C + s) / (2·B) is a root of B·x² + C·x + D whenever s² is the discriminant. */
  lemma RealRootOfQuadratic(p: Polynom, s: real, x: real)
    requires p.b != 0.0 && s * s == Discriminant(p) && x == (-p.c + s) / (2.0 * p.b)
    ensures QuadEval(p, x) == 0.0
  {
    var b, c, d := p.b, p.c, p.d;
    var n := 2.0 * b * x;
    assert n == s - c;
    assert 4.0 * b * QuadEval(p, x) == n * n + 2.0 * c * n + 4.0 * b * d;
    assert n * n == s * s - 2.0 * c * s + c * c;
    assert n * n + 2.0 * c * n == s * s - c * c;
    CancelFactor(4.0 * b, QuadEval(p, x));
  }

  /** (-C + i·t) / (2·B) is a root of B·z² + C·z + D whenever t² is minus the discriminant. */
  lemma ComplexRootOfQuadratic(p: Polynom, t: real, z: Complex)
    requires p.b != 0.0 && t * t == -Discriminant(p)
    requires z == Complex(-p.c / (2.0 * p.b), t / (2.0 * p.b))
    ensures QuadEvalComplex(p, z) == ComplexZero
  {
    var b, c, d := p.b, p.c, p.d;
    var u, v := 2.0 * b * z.re, 2.0 * b * z.im;
    assert u == -c && v == t;
    var w := QuadEvalComplex(p, z);
    assert 4.0 * b * w.re == u * u - v * v + 2.0 * c * u + 4.0 * b * d;
    assert u * u - v * v + 2.0 * c * u == -c * c - t * t;
    CancelFactor(4.0 * b, w.re);
    assert w.im == z.im * (u + c);
  }

  /**
   * With an exact square root the answer of `solveQuadraticEquation` is
   * right: every real root and every complex root is a zero of
   * B·x² + C·x + D, the two real roots multiply to D / B, and the complex
   * roots are not real.
   */
  lemma SolveQuadraticRoots(p: Polynom, sqrt: Sqrt)
    requires p.b != 0.0 && GenuineSqrt(sqrt)
    ensures var s := SolveQuadratic(p, sqrt);
      (forall x :: x in s.realSolutions ==> QuadEval(p, x) == 0.0)
      && (forall z :: z in s.complexSolutions ==> QuadEvalComplex(p, z) == ComplexZero && z.im != 0.0)
      && (|s.realSolutions| == 2 ==> s.realSolutions[0] * s.realSolutions[1] == p.d / p.b)
  {
    var delta := Discriminant(p);
    if delta < 0.0 {
      assert sqrt(-delta) * sqrt(-delta) == -delta;
      ComplexRootsOfQuadratic(p, sqrt);
    } else {
      assert sqrt(delta) * sqrt(delta) == delta;
      RealRootsOfQuadratic(p, sqrt);
    }
  }

  /** The complex branch: both roots are zeros of the quadratic, and not real. */
  lemma ComplexRootsOfQuadratic(p: Polynom, sqrt: Sqrt)
    requires p.b != 0.0 && Discriminant(p) < 0.0
    requires sqrt(-Discriminant(p)) * sqrt(-Discriminant(p)) == -Discriminant(p)
    ensures var s := SolveQuadratic(p, sqrt);
      forall z :: z in s.complexSolutions ==> QuadEvalComplex(p, z) == ComplexZero && z.im != 0.0
  {
    var s := SolveQuadratic(p, sqrt);
    var t := sqrt(-Discriminant(p));
    assert (-t) * (-t) == t * t;
    ComplexRootOfQuadratic(p, -t, s.complexSolutions[0]);
    ComplexRootOfQuadratic(p, t, s.complexSolutions[1]);
  }

  /** The real branch: both roots are zeros of the quadratic and multiply to D / B. */
  lemma RealRootsOfQuadratic(p: Polynom, sqrt: Sqrt)
    requires p.b != 0.0 && Discriminant(p) >= 0.0
    requires sqrt(Discriminant(p)) * sqrt(Discriminant(p)) == Discriminant(p)
    ensures var s := SolveQuadratic(p, sqrt);
      (forall x :: x in s.realSolutions ==> QuadEval(p, x) == 0.0)
      && s.realSolutions[0] * s.realSolutions[1] == p.d / p.b
  {
    var s := SolveQuadratic(p, sqrt);
    var r := sqrt(Discriminant(p));
    assert (-r) * (-r) == r * r;
    RealRootOfQuadratic(p, -r, s.realSolutions[0]);
    RealRootOfQuadratic(p, r, s.realSolutions[1]);
    RootProduct(p, r, s.realSolutions[0], s.realSolutions[1]);
  }

  /** Vieta's product for the two roots (-C -+ r) / (2·B). */
  lemma RootProduct(p: Polynom, r: real, x1: real, x2: real)
    requires p.b != 0.0 && r * r == Discriminant(p)
    requires x1 == (-p.c - r) / (2.0 * p.b) && x2 == (-p.c + r) / (2.0 * p.b)
    ensures x1 * x2 == p.d / p.b
  {
    var b := p.b;
    assert 2.0 * b * x1 == -p.c - r && 2.0 * b * x2 == -p.c + r;
    assert (2.0 * b * x1) * (2.0 * b * x2) == p.c * p.c - r * r;
    assert 4.0 * b * b * (x1 * x2) == 4.0 * b * p.d;
  }

  /**
   * The order of the two real roots follows the sign of B: the `-sqrt`
   * root comes first, which is the smaller one when B > 0 and the larger
   * one when B < 0.
   */
  lemma SolveQuadraticOrder(p: Polynom, sqrt: Sqrt)
    requires p.b != 0.0 && Discriminant(p) >= 0.0 && 0.0 <= sqrt(Discriminant(p))
    ensures var s := SolveQuadratic(p, sqrt);
      (p.b > 0.0 ==> s.realSolutions[0] <= s.realSolutions[1])
      && (p.b < 0.0 ==> s.realSolutions[0] >= s.realSolutions[1])
  {
    var s := SolveQuadratic(p, sqrt);
    var r := sqrt(Discriminant(p));
    assert s.realSolutions[1] - s.realSolutions[0] == (2.0 * r) / (2.0 * p.b);
  }

  /** The quadratic factor a·x² + b·x + c of a cubic without constant term. */
  function QuadFactor(p: Polynom): (q: Polynom)
    ensures p.d == 0.0 ==> forall x :: Eval(p, x) == x * QuadEval(q, x)
  {
    Polynom(0.0, p.a, p.b, p.c)
  }

  /**
   * How the `D = 0` shortcut of `solveCubicEquation` turns the answer of the
   * quadratic solver into its three roots: 0 first, then the two real roots
   * as complex numbers with zero imaginary part, or the complex pair as it
   * is (0 for both when neither list is empty, which the quadratic solver
   * never returns).
   */
  function ShortcutTriple(solution: EquationSolution): (r: (Complex, Complex, Complex))
    requires solution.complexSolutions == [] ==> |solution.realSolutions| >= 2
    requires solution.complexSolutions != [] && solution.realSolutions == [] ==> |solution.complexSolutions| >= 2
    ensures r.0 == ComplexZero
    ensures solution.complexSolutions == [] ==>
      r.1 == Complex(solution.realSolutions[0], 0.0) && r.2 == Complex(solution.realSolutions[1], 0.0)
    ensures solution.complexSolutions != [] && solution.realSolutions == [] ==>
      r.1 == solution.complexSolutions[0] && r.2 == solution.complexSolutions[1]
  {
    if solution.complexSolutions == [] then
      (ComplexZero, Complex(solution.realSolutions[0], 0.0), Complex(solution.realSolutions[1], 0.0))
    else if solution.realSolutions == [] then
      (ComplexZero, solution.complexSolutions[0], solution.complexSolutions[1])
    else
      (ComplexZero, ComplexZero, ComplexZero)
  }

  /**
   * `solveCubicEquation` with the shortcut for D = 0 corrected: the roots are
   * 0 and the roots of the quadratic factor a·x² + b·x + c; a real root r of
   * the factor is reported as r + 0i. A non-zero D goes to the Cardano branch.
   */
  function SolveCubic(p: Polynom, sqrt: Sqrt, cardano: CubicFormula): (r: (Complex, Complex, Complex))
    requires p.a != 0.0
    ensures p.d != 0.0 ==> r == cardano(p)
    ensures p.d == 0.0 ==>
      r.0 == ComplexZero
      && r.1.re + r.2.re == -p.b / p.a
      && r.1.im == -r.2.im
      && (Discriminant(QuadFactor(p)) >= 0.0 ==> r.1.im == 0.0 && r.2.im == 0.0)
      && (Discriminant(QuadFactor(p)) < 0.0 ==> r.1.re == r.2.re == -p.b / (2.0 * p.a))
  {
    if p.d == 0.0 then
      ShortcutTriple(SolveQuadratic(QuadFactor(p), sqrt))
    else
      cardano(p)
  }

  /**
   * `solveCubicEquation` as written: for D = 0 it builds
   * `Polynom{A: b, B: c, C: d}`, which the quadratic solver reads as
   * c·x² + 0·x + 0, so both extra roots are 0 whatever a and b are. The
   * source divides by c there, so this member asks c to be non-zero on that
   * path.
   */
  function SolveCubicAsWritten(p: Polynom, sqrt: Sqrt, cardano: CubicFormula): (r: (Complex, Complex, Complex))
    requires p.a != 0.0 && (p.d == 0.0 ==> p.c != 0.0)
    ensures p.d != 0.0 ==> r == cardano(p)
    ensures p.d == 0.0 && sqrt(0.0) == 0.0 ==> r == (ComplexZero, ComplexZero, ComplexZero)
  {
    if p.d == 0.0 then
      ShortcutTriple(SolveQuadratic(Polynom(p.b, p.c, p.d, 0.0), sqrt))
    else
      cardano(p)
  }

  /**
   * x³ + 2x² + x = x·(x + 1)² has the root -1, but the shortcut as written
   * reports 0 three times; the corrected shortcut reports 0, -1 and -1.
   */
  lemma ShortcutMissesRoot(sqrt: Sqrt, cardano: CubicFormula)
    requires sqrt(0.0) == 0.0
    ensures var p := Polynom(1.0, 2.0, 1.0, 0.0);
      Eval(p, -1.0) == 0.0
      && SolveCubicAsWritten(p, sqrt, cardano) == (ComplexZero, ComplexZero, ComplexZero)
      && SolveCubic(p, sqrt, cardano) == (ComplexZero, Complex(-1.0, 0.0), Complex(-1.0, 0.0))
  {
    var p := Polynom(1.0, 2.0, 1.0, 0.0);
    assert Discriminant(QuadFactor(p)) == 0.0;
  }

  /**
   * The corrected shortcut is right: with D = 0 and an exact square root,
   * every root it reports with zero imaginary part is a root of the cubic,
   * and every other one is a complex zero of the quadratic factor.
   */
  lemma SolveCubicShortcutRoots(p: Polynom, sqrt: Sqrt, cardano: CubicFormula)
    requires p.a != 0.0 && p.d == 0.0 && GenuineSqrt(sqrt)
    ensures var r := SolveCubic(p, sqrt, cardano);
      forall z :: z in [r.0, r.1, r.2] ==>
        (z.im == 0.0 ==> Eval(p, z.re) == 0.0)
        && (z.im != 0.0 ==> QuadEvalComplex(QuadFactor(p), z) == ComplexZero)
  {
    var q := QuadFactor(p);
    var r := SolveCubic(p, sqrt, cardano);
    var solution := SolveQuadratic(q, sqrt);
    SolveQuadraticRoots(q, sqrt);
    assert Eval(p, 0.0) == 0.0;
    if solution.complexSolutions == [] {
      assert solution.realSolutions[0] in solution.realSolutions;
      assert solution.realSolutions[1] in solution.realSolutions;
      assert Eval(p, r.1.re) == r.1.re * QuadEval(q, r.1.re);
      assert Eval(p, r.2.re) == r.2.re * QuadEval(q, r.2.re);
    } else {
      assert solution.complexSolutions[0] in solution.complexSolutions;
      assert solution.complexSolutions[1] in solution.complexSolutions;
    }
  }

  /**
   * `evaluatePolynomDeg`: dispatch on the highest non-zero coefficient. A
   * cubic gives three complex roots, a quadratic the two roots of
   * `solveQuadraticEquation`, a linear equation its one real root, and the
   * all-zero case the placeholder 0, 0i with the missing-variable message,
   * the only case with an error.
   */
  function EvaluatePolynomDeg(p: Polynom, sqrt: Sqrt, cardano: CubicFormula): (s: EquationSolution)
    ensures s.errorDescription == if p.a == 0.0 && p.b == 0.0 && p.c == 0.0 then MissingVariableError else ""
    ensures p.a != 0.0 ==> s.realSolutions == [] && |s.complexSolutions| == 3
    ensures p.a == 0.0 && p.b != 0.0 ==>
      s == SolveQuadratic(p, sqrt)
      && |s.realSolutions| + |s.complexSolutions| == 2 && (s.realSolutions == [] <==> Discriminant(p) < 0.0)
    ensures p.a == 0.0 && p.b == 0.0 && p.c != 0.0 ==>
      s.complexSolutions == [] && |s.realSolutions| == 1 && Eval(p, s.realSolutions[0]) == 0.0
    ensures p.a == 0.0 && p.b == 0.0 && p.c == 0.0 ==>
      s.realSolutions == [0.0] && s.complexSolutions == [ComplexZero]
  {
    if p.a != 0.0 then
      var r := SolveCubic(p, sqrt, cardano);
      EquationSolution([], [r.0, r.1, r.2], "")
    else if p.b != 0.0 then
      SolveQuadratic(p, sqrt)
    else if p.c != 0.0 then
      EquationSolution([SolveLinear(p)], [], "")
    else
      EquationSolution([0.0], [ComplexZero], MissingVariableError)
  }

  /**
   * `SolvePolynom`: the dispatch, then the coercion of roots with zero
   * imaginary part to real ones. No complex root left is real, no root is
   * lost, and the total count is the degree (2 in the all-zero case: the
   * placeholder 0 twice).
   */
  function SolvePolynom(p: Polynom, sqrt: Sqrt, cardano: CubicFormula): (s: EquationSolution)
    ensures s.errorDescription == if p.a == 0.0 && p.b == 0.0 && p.c == 0.0 then MissingVariableError else ""
    ensures forall z :: z in s.complexSolutions ==> z.im != 0.0
    ensures |s.realSolutions| + |s.complexSolutions|
         == if p.a != 0.0 then 3 else if p.b != 0.0 || p.c == 0.0 then 2 else 1
    ensures p.a == 0.0 && p.b == 0.0 && p.c == 0.0 ==> s == EquationSolution([0.0, 0.0], [], MissingVariableError)
  {
    assert [ComplexZero][1..] == [];
    ComplexToReal(EvaluatePolynomDeg(p, sqrt, cardano))
  }

  /**
   * `evaluatePolynomDeg` as written: a cubic goes through the shortcut as
   * written; every other branch is the dispatch above. It differs from
   * `EvaluatePolynomDeg` only on a cubic without constant term.
   */
  function EvaluatePolynomDegAsWritten(p: Polynom, sqrt: Sqrt, cardano: CubicFormula): (s: EquationSolution)
    requires p.a != 0.0 && p.d == 0.0 ==> p.c != 0.0
    ensures p.a != 0.0 ==> s.realSolutions == [] && |s.complexSolutions| == 3 && s.errorDescription == ""
    ensures p.a == 0.0 || p.d != 0.0 ==> s == EvaluatePolynomDeg(p, sqrt, cardano)
  {
    if p.a != 0.0 then
      var r := SolveCubicAsWritten(p, sqrt, cardano);
      EquationSolution([], [r.0, r.1, r.2], "")
    else
      EvaluatePolynomDeg(p, sqrt, cardano)
  }

  /**
   * When the program as written runs to the end without a division of zero
   * by zero and without the coercion loop slicing past the end of its array.
   */
  predicate AsWrittenDefined(p: Polynom, sqrt: Sqrt, cardano: CubicFormula)
  {
    (p.a != 0.0 && p.d == 0.0 ==> p.c != 0.0)
    && InBounds(EvaluatePolynomDegAsWritten(p, sqrt, cardano).complexSolutions)
  }

  /**
   * A square root that is positive on the positive reals keeps the
   * coercion loop in bounds: only a negative discriminant gives exactly two
   * complex roots, and their imaginary parts are then non-zero.
   */
  lemma AsWrittenDefinedWhen(p: Polynom, sqrt: Sqrt, cardano: CubicFormula)
    requires PositiveSqrt(sqrt)
    requires p.a != 0.0 && p.d == 0.0 ==> p.c != 0.0
    ensures AsWrittenDefined(p, sqrt, cardano)
  {
    if p.a == 0.0 && p.b != 0.0 && Discriminant(p) < 0.0 {
      var t := sqrt(-Discriminant(p));
      assert 0.0 < t;
      var z := SolveQuadratic(p, sqrt).complexSolutions[1];
      assert z.im == t / (2.0 * p.b);
      assert z.im != 0.0;
    }
  }

  /** An exact square root is positive on the positive reals. */
  lemma GenuineSqrtIsPositive(sqrt: Sqrt)
    requires GenuineSqrt(sqrt)
    ensures PositiveSqrt(sqrt)
  {
    forall y | 0.0 < y
      ensures 0.0 < sqrt(y)
    {
      assert sqrt(y) * sqrt(y) == y;
    }
  }

  /**
   * `SolvePolynom` as written: the shortcut as written, then the coercion
   * loop as written. Below degree 3 it is the corrected pipeline; on a cubic
   * without constant term and with sqrt(0) = 0 it reports 0 three times.
   */
  function SolvePolynomAsWritten(p: Polynom, sqrt: Sqrt, cardano: CubicFormula): (s: EquationSolution)
    requires AsWrittenDefined(p, sqrt, cardano)
    ensures p.a == 0.0 ==> s == SolvePolynom(p, sqrt, cardano)
    ensures p.a != 0.0 && p.d == 0.0 && sqrt(0.0) == 0.0 ==> s == EquationSolution([0.0, 0.0, 0.0], [], "")
  {
    var raw := EvaluatePolynomDegAsWritten(p, sqrt, cardano);
    if p.a == 0.0 then
      AsWrittenAgreesOnShortLists(raw);
      AsWrittenCoercion(raw)
    else if p.d == 0.0 && sqrt(0.0) == 0.0 then
      assert raw.complexSolutions == [ComplexZero, ComplexZero, ComplexZero];
      AsWrittenThreeReals(raw);
      AsWrittenCoercion(raw)
    else
      AsWrittenCoercion(raw)
  }

  /**
   * End to end on x³ + 2x² + x: the program as written reports the real
   * root 0 three times, the corrected pipeline reports 0, -1 and -1.
   */
  lemma SolvePolynomMissesRoot(sqrt: Sqrt, cardano: CubicFormula)
    requires sqrt(0.0) == 0.0
    ensures var p := Polynom(1.0, 2.0, 1.0, 0.0);
      AsWrittenDefined(p, sqrt, cardano)
      && SolvePolynomAsWritten(p, sqrt, cardano) == EquationSolution([0.0, 0.0, 0.0], [], "")
      && SolvePolynom(p, sqrt, cardano) == EquationSolution([0.0, -1.0, -1.0], [], "")
  {
    var p := Polynom(1.0, 2.0, 1.0, 0.0);
    var cs := [ComplexZero, Complex(-1.0, 0.0), Complex(-1.0, 0.0)];
    var raw := EquationSolution([], cs, "");
    assert EvaluatePolynomDeg(p, sqrt, cardano) == raw by {
      ShortcutMissesRoot(sqrt, cardano);
    }
    assert ComplexToReal(raw) == EquationSolution([0.0, -1.0, -1.0], [], "") by {
      PartitionOfThree(cs);
    }
  }

  /**
   * With an exact square root, every real root `SolvePolynom` reports is a
   * root of the polynomial, for every equation that does not go through the
   * Cardano branch (linear, quadratic, and cubic without constant term).
   */
  lemma SolvePolynomRoots(p: Polynom, sqrt: Sqrt, cardano: CubicFormula)
    requires GenuineSqrt(sqrt)
    requires p.a == 0.0 || p.d == 0.0
    requires p.a != 0.0 || p.b != 0.0 || p.c != 0.0
    ensures forall x :: x in SolvePolynom(p, sqrt, cardano).realSolutions ==> Eval(p, x) == 0.0
  {
    var raw := EvaluatePolynomDeg(p, sqrt, cardano);
    var s := SolvePolynom(p, sqrt, cardano);
    assert s.realSolutions == raw.realSolutions + ZeroImagParts(raw.complexSolutions);
    if p.a != 0.0 {
      SolveCubicShortcutRoots(p, sqrt, cardano);
    } else if p.b != 0.0 {
      SolveQuadraticRoots(p, sqrt);
      assert forall x :: QuadEval(p, x) == Eval(p, x);
    }
    forall x | x in s.realSolutions
      ensures Eval(p, x) == 0.0
    {
      if x !in raw.realSolutions {
        assert x in ZeroImagParts(raw.complexSolutions);
        ZeroImagPartsExact(raw.complexSolutions);
      }
    }
  }
}
