/**
 * The value types of the solver: the four-coefficient polynomial, complex
 * roots, the solution record, and the fixed messages of the validator.
 * `float64` is idealised as `real` and `complex128` as a pair of reals.
 */
module Types {

  /** A·x³ + B·x² + C·x + D = 0, with the right-hand side already folded in. */
  datatype Polynom = Polynom(a: real, b: real, c: real, d: real)

  /** A `complex128`: real and imaginary part. */
  datatype Complex = Complex(re: real, im: real)

  /** The solver's answer: real roots, complex roots and an error text ("" when none). */
  datatype EquationSolution = EquationSolution(
    realSolutions: seq<real>,
    complexSolutions: seq<Complex>,
    errorDescription: string)

  /** The value of the polynomial at a real point. */
  function Eval(p: Polynom, x: real): real
  {
    p.a * x * x * x + p.b * x * x + p.c * x + p.d
  }

  const NoEqualSignError: string := "Error: No equal sign detected."
  const DoubleMultiplySignError: string := "Error: Double multiply sign detected."
  const DoublePowerSignError: string := "Error: Double power sign detected."
  const DoubleDivisionSignError: string := "Error: Double division sign detected."
  const DoubleVariableSignError: string := "Error: Double variable sign detected."

  /** The message the solver reports when every coefficient is zero. */
  const MissingVariableError: string := "Missing variable error."

  /** The five messages of the validator, in their order of priority. */
  function ValidationErrors(): seq<string>
  {
    [NoEqualSignError, DoubleMultiplySignError, DoublePowerSignError,
     DoubleDivisionSignError, DoubleVariableSignError]
  }

  /** The five validation messages are pairwise distinct. */
  lemma ValidationErrorsDistinct()
    ensures forall i, j :: 0 <= i < j < 5 ==> ValidationErrors()[i] != ValidationErrors()[j]
  {
    var errors := ValidationErrors();
    assert |errors[0]| == 30 && |errors[1]| == 37 && |errors[2]| == 34;
    assert |errors[3]| == 37 && |errors[4]| == 37;
    assert errors[1][14] == 'm' && errors[3][14] == 'd' && errors[4][14] == 'v';
  }

  /** Every validation message starts with "Error: ". */
  lemma ValidationErrorsPrefixed()
    ensures forall m :: m in ValidationErrors() ==> |m| >= 7 && m[..7] == "Error: "
  {
    var errors := ValidationErrors();
    forall m | m in errors
      ensures |m| >= 7 && m[..7] == "Error: "
    {
      var k :| 0 <= k < 5 && errors[k] == m;
      assert errors[k][..7] == "Error: ";
    }
  }

  /**
   * No validation message is empty, so "" is an unambiguous success value,
   * and none is the solver's own missing-variable message.
   */
  lemma ValidationErrorsNotOthers()
    ensures "" !in ValidationErrors()
    ensures MissingVariableError !in ValidationErrors()
  {
    var errors := ValidationErrors();
    assert |errors[0]| == 30 && |errors[1]| == 37 && |errors[2]| == 34;
    assert |errors[3]| == 37 && |errors[4]| == 37 && |MissingVariableError| == 23;
  }
}
