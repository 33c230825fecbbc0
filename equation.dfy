/**
 * The public entry points (`ValidateEquation`, `EvaluateEquation`): the
 * syntactic checks, then the whole pipeline from the text of an equation to
 * its roots. The message `EvaluateEquation` prints on a rejected equation is
 * not modelled.
 */
module Equation {
  import opened Types
  import opened Text
  import opened Normalizer
  import opened Splitter
  import opened Powers
  import opened Coefficients
  import opened Coercion
  import opened Solver

  /**
   * `ValidateEquation`: "" when the equation has an '=' and none of "**",
   * "^^", "//" and "xx"; otherwise the message of the first check that
   * fails, in that order.
   */
  function ValidateEquation(equation: string): (errorMessage: string)
    ensures errorMessage == "" <==>
      '=' in equation && !HasSubstring(equation, "**") && !HasSubstring(equation, "^^")
      && !HasSubstring(equation, "//") && !HasSubstring(equation, "xx")
    ensures errorMessage == "" || errorMessage in ValidationErrors()
    ensures errorMessage == NoEqualSignError <==> '=' !in equation
    ensures errorMessage == DoubleMultiplySignError <==>
      '=' in equation && HasSubstring(equation, "**")
    ensures errorMessage == DoublePowerSignError <==>
      '=' in equation && !HasSubstring(equation, "**") && HasSubstring(equation, "^^")
    ensures errorMessage == DoubleDivisionSignError <==>
      '=' in equation && !HasSubstring(equation, "**") && !HasSubstring(equation, "^^")
      && HasSubstring(equation, "//")
    ensures errorMessage == DoubleVariableSignError <==>
      '=' in equation && !HasSubstring(equation, "**") && !HasSubstring(equation, "^^")
      && !HasSubstring(equation, "//") && HasSubstring(equation, "xx")
  {
    ValidationErrorsDistinct();
    ValidationErrorsNotOthers();
    var hasEqualSign := '=' in equation;
    var hasDoubleMultiplySign := HasSubstring(equation, "**");
    var hasDoublePowerSign := HasSubstring(equation, "^^");
    var hasDoubleDivisionSign := HasSubstring(equation, "//");
    var hasDoubleVariableSign := HasSubstring(equation, "xx");
    if !hasEqualSign then NoEqualSignError
    else if hasDoubleMultiplySign then DoubleMultiplySignError
    else if hasDoublePowerSign then DoublePowerSignError
    else if hasDoubleDivisionSign then DoubleDivisionSignError
    else if hasDoubleVariableSign then DoubleVariableSignError
    else ""
  }

  /**
   * The test suite's inputs have no '=', so each is rejected for that,
   * before its doubled sign is looked at.
   */
  lemma ValidateEquationCases()
    ensures ValidateEquation("x^2+3") == NoEqualSignError
    ensures ValidateEquation("x^^2+3") == NoEqualSignError
    ensures ValidateEquation("x**2+3") == NoEqualSignError
    ensures ValidateEquation("x//2+3") == NoEqualSignError
    ensures ValidateEquation("xx2+3") == NoEqualSignError
  {
  }

  /** The same equation with an '=' and no doubled sign is accepted. */
  lemma ValidateEquationAccepts(e: string)
    requires e == "x^2+3=1"
    ensures ValidateEquation(e) == ""
  {
    assert e[5] == '=';
    assert forall i :: 0 <= i < |e| - 1 ==> e[i] != e[i + 1];
    PairNotAdjacent(e, '*', '*');
    PairNotAdjacent(e, '^', '^');
    PairNotAdjacent(e, '/', '/');
    PairNotAdjacent(e, 'x', 'x');
  }

  /**
   * The polynomial `EvaluateEquation` builds from an equation: the balanced
   * pieces of its normalised form, their variable terms bucketed by degree
   * and summed per degree, and their constants summed.
   */
  function PolynomOf(parse: Parser, equation: string): Polynom
  {
    var sided := Sided(Split(Replaced(equation), ';'));
    var xs := XTerms(sided);
    Polynom(Total(CoefficientValues(parse, Bucket(xs, 3))),
            Total(CoefficientValues(parse, Bucket(xs, 2))),
            Total(CoefficientValues(parse, Bucket(xs, 1))),
            Total(ConstantValues(parse, ConstTerms(sided))))
  }

  /**
   * `EvaluateEquation`: a rejected equation gives its message and no roots;
   * an accepted one gives the roots of the polynomial built from it.
   */
  method EvaluateEquation(equation: string, parse: Parser, sqrt: Sqrt, cardano: CubicFormula)
    returns (solution: EquationSolution)
    ensures ValidateEquation(equation) != "" ==>
      solution == EquationSolution([], [], ValidateEquation(equation))
    ensures ValidateEquation(equation) == "" ==>
      solution == SolvePolynom(PolynomOf(parse, equation), sqrt, cardano)
  {
    var errorMessage := ValidateEquation(equation);
    if errorMessage != "" {
      return EquationSolution([], [], errorMessage);
    }
    var polynom := BuildPolynom(equation, parse);
    solution := SolvePolynom(polynom, sqrt, cardano);
  }

  /**
   * `EvaluateEquation` as written: the same front end, then the cubic
   * shortcut and the coercion loop as written. The caller must keep the
   * program as written away from the division of zero by zero and from
   * the coercion loop's out-of-range slice.
   */
  method EvaluateEquationAsWritten(equation: string, parse: Parser, sqrt: Sqrt, cardano: CubicFormula)
    returns (solution: EquationSolution)
    requires ValidateEquation(equation) == "" ==> AsWrittenDefined(PolynomOf(parse, equation), sqrt, cardano)
    ensures ValidateEquation(equation) != "" ==>
      solution == EquationSolution([], [], ValidateEquation(equation))
    ensures ValidateEquation(equation) == "" ==>
      solution == SolvePolynomAsWritten(PolynomOf(parse, equation), sqrt, cardano)
  {
    var errorMessage := ValidateEquation(equation);
    if errorMessage != "" {
      return EquationSolution([], [], errorMessage);
    }
    var polynom := BuildPolynom(equation, parse);
    var raw := EvaluatePolynomDegAsWritten(polynom, sqrt, cardano);
    solution := ComplexToRealAsWritten(raw);
  }

  /**
   * The front end of `EvaluateEquation`: normalise, split, bucket by degree,
   * sum each bucket and the constants, and build the polynomial.
   */
  method BuildPolynom(equation: string, parse: Parser) returns (polynom: Polynom)
    ensures polynom == PolynomOf(parse, equation)
  {
    var normalised := ReplaceEquation(equation);
    var eqVariables, eqConstants := SplitEquation(normalised);
    var firstDegVar, secondDegVar, thirdDegVar := SeparatePowers(eqVariables);
    var xElevated1 := SumVariableValues(parse, firstDegVar);
    var xElevated2 := SumVariableValues(parse, secondDegVar);
    var xElevated3 := SumVariableValues(parse, thirdDegVar);
    var constantsSum := SumConstantValues(parse, eqConstants);
    polynom := CreateSamplePolynom(xElevated3, xElevated2, xElevated1, constantsSum);
  }

  /** An accepted equation never reports a validation message. */
  lemma AcceptedHasNoValidationError(equation: string, parse: Parser, sqrt: Sqrt, cardano: CubicFormula)
    requires ValidateEquation(equation) == ""
    ensures SolvePolynom(PolynomOf(parse, equation), sqrt, cardano).errorDescription !in ValidationErrors()
  {
    ValidationErrorsNotOthers();
  }

  /** The normalised form of "x^2+3=1". */
  lemma ReplacedSmallExample(e: string)
    requires e == "x^2+3=1"
    ensures Replaced(e) == "x^2;+3;=;1"
  {
    assert ReplacedPrefix(e, 1) == "x" by {
      assert Piece(e, 0) == "x";
    }
    assert ReplacedPrefix(e, 2) == "x^" by {
      assert Piece(e, 1) == "^";
    }
    assert ReplacedPrefix(e, 3) == "x^2" by {
      assert Piece(e, 2) == "2";
    }
    assert ReplacedPrefix(e, 4) == "x^2;+" by {
      assert Piece(e, 3) == ";+";
    }
    assert ReplacedPrefix(e, 5) == "x^2;+3" by {
      assert Piece(e, 4) == "3";
    }
    assert ReplacedPrefix(e, 6) == "x^2;+3;=;" by {
      assert Piece(e, 5) == ";=;";
    }
    assert ReplacedPrefix(e, 7) == "x^2;+3;=;1" by {
      assert Piece(e, 6) == "1";
    }
  }

  /** "x^2+3=1" becomes x² + 2 = 0 once the numerals parse to their values. */
  lemma PolynomOfSmallExample(parse: Parser)
    requires parse("1") == Some(1.0) && parse("+3") == Some(3.0) && parse("-1") == Some(-1.0)
    ensures PolynomOf(parse, "x^2+3=1") == Polynom(0.0, 1.0, 0.0, 2.0)
  {
    var e := "x^2+3=1";
    ReplacedSmallExample(e);
    SplitExample(Replaced(e));
    var sided := Sided(Split(Replaced(e), ';'));
    var xs := XTerms(sided);
    BucketsOfSquare(xs);
    CoefficientSquare(parse, Bucket(xs, 2));
    ConstantsExample(parse, ConstTerms(sided));
  }

  /** x² + 2 = 0 has no real root and the pair ±i·sqrt(8)/2. */
  lemma SolveSmallExample(sqrt: Sqrt, cardano: CubicFormula)
    requires sqrt(8.0) != 0.0
    ensures SolvePolynom(Polynom(0.0, 1.0, 0.0, 2.0), sqrt, cardano)
         == EquationSolution([], [Complex(0.0, -sqrt(8.0) / 2.0), Complex(0.0, sqrt(8.0) / 2.0)], "")
  {
    var p := Polynom(0.0, 1.0, 0.0, 2.0);
    var raw := EvaluatePolynomDeg(p, sqrt, cardano);
    assert Discriminant(p) == -8.0;
    assert raw.complexSolutions == [Complex(0.0, -sqrt(8.0) / 2.0), Complex(0.0, sqrt(8.0) / 2.0)];
    PartitionOfAllComplex(raw.complexSolutions);
  }

  /** The single term "x^2" sits in the second-degree bucket only. */
  lemma BucketsOfSquare(xs: seq<string>)
    requires xs == ["x^2"]
    ensures Bucket(xs, 3) == [] && Bucket(xs, 2) == ["x^2"] && Bucket(xs, 1) == []
  {
    assert xs[..0] == [];
    assert HasSubstring("x^2", "x^2");
    assert !HasSubstring("x^2", "x^3");
  }

  /** The coefficients of the bucket ["x^2"] add up to 1. */
  lemma CoefficientSquare(parse: Parser, bucket: seq<string>)
    requires parse("1") == Some(1.0) && bucket == ["x^2"]
    ensures Total(CoefficientValues(parse, bucket)) == 1.0
  {
    assert CoefficientText(bucket[0]) == "1" by {
      assert bucket[0] in ["x", "+x", "x^2", "+x^2", "x^3", "+x^3"];
    }
    var values := CoefficientValues(parse, bucket);
    assert values == [1.0] && values[..0] == [];
  }

  /** The constants ["+3", "-1"] add up to 2. */
  lemma ConstantsExample(parse: Parser, cs: seq<string>)
    requires parse("+3") == Some(3.0) && parse("-1") == Some(-1.0) && cs == ["+3", "-1"]
    ensures Total(ConstantValues(parse, cs)) == 2.0
  {
    var values := ConstantValues(parse, cs);
    assert values == [3.0, -1.0];
    var one := values[..1];
    assert one[..0] == [];
    assert Total(one) == 3.0;
  }
}
