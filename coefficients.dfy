/**
 * Coefficient extraction and summation (`sumVariableValues`,
 * `sumConstantValues`). `strconv.ParseFloat` is a parameter of type
 * `Parser`; a failed parse contributes 0, as the source ignores the error
 * and keeps the zero value. Sums are over `real`.
 */
module Coefficients {
  import opened Text

  datatype Option<T> = None | Some(value: T)

  /** `strconv.ParseFloat(s, 64)`: the number, or None on a syntax error. */
  type Parser = string -> Option<real>

  /** What the source keeps from a parse: the number, or 0 when it failed. */
  function ValueOrZero(parsed: Option<real>): real
  {
    match parsed
    case Some(v) => v
    case None => 0.0
  }

  /**
   * The text `sumVariableValues` parses for one term: the bare forms "x",
   * "+x", "x^2", "+x^2", "x^3", "+x^3" give "1" and "-x" gives "-1";
   * anything else gives its longest prefix free of 'x'. "-x^2" and "-x^3"
   * are not in the table, so they give "-".
   */
  function CoefficientText(ax: string): (t: string)
    ensures 'x' !in t
    ensures ax in ["x", "+x", "x^2", "+x^2", "x^3", "+x^3"] ==> t == "1"
    ensures ax == "-x" ==> t == "-1"
    ensures ax !in ["x", "+x", "-x", "x^2", "+x^2", "x^3", "+x^3"] ==>
      |t| <= |ax| && t == ax[..|t|] && (|t| < |ax| ==> ax[|t|] == 'x')
  {
    var rewritten :=
      if ax == "x" || ax == "+x" then "1x"
      else if ax == "-x" then "-1x"
      else if ax == "x^2" || ax == "+x^2" then "1x^2"
      else if ax == "x^3" || ax == "+x^3" then "1x^3"
      else ax;
    FirstPieceIsPrefix(rewritten, 'x');
    Split(rewritten, 'x')[0]
  }

  /** The parsed coefficient of every variable term, failures as 0. */
  function CoefficientValues(parse: Parser, variables: seq<string>): (r: seq<real>)
    ensures |r| == |variables|
  {
    seq(|variables|, i requires 0 <= i < |variables| => ValueOrZero(parse(CoefficientText(variables[i]))))
  }

  /** The parsed value of every constant, failures as 0. */
  function ConstantValues(parse: Parser, constants: seq<string>): (r: seq<real>)
    ensures |r| == |constants|
  {
    seq(|constants|, i requires 0 <= i < |constants| => ValueOrZero(parse(constants[i])))
  }

  /** The sum of a list, accumulated from the front as the source's loops do. */
  function Total(xs: seq<real>): real
  {
    if xs == [] then 0.0 else Total(xs[..|xs| - 1]) + xs[|xs| - 1]
  }

  /** The sum of a concatenation is the sum of the sums. */
  lemma {:induction false} TotalAppend(xs: seq<real>, ys: seq<real>)
    ensures Total(xs + ys) == Total(xs) + Total(ys)
    decreases |ys|
  {
    if ys != [] {
      var init := ys[..|ys| - 1];
      assert (xs + ys)[..|xs + ys| - 1] == xs + init;
      TotalAppend(xs, init);
    } else {
      assert xs + ys == xs;
    }
  }

  /**
   * `sumVariableValues`: a first loop collects the coefficient of every
   * term, a second one adds them up.
   */
  method SumVariableValues(parse: Parser, variablesList: seq<string>) returns (totalCoeff: real)
    ensures totalCoeff == Total(CoefficientValues(parse, variablesList))
  {
    var coefficients: seq<real> := [];
    for i := 0 to |variablesList|
      invariant |coefficients| == i
      invariant forall k :: 0 <= k < i ==>
        coefficients[k] == ValueOrZero(parse(CoefficientText(variablesList[k])))
    {
      var ax := variablesList[i];
      var coeff := ValueOrZero(parse(CoefficientText(ax)));
      coefficients := coefficients + [coeff];
    }
    assert coefficients == CoefficientValues(parse, variablesList);
    totalCoeff := 0.0;
    for j := 0 to |coefficients|
      invariant totalCoeff == Total(coefficients[..j])
    {
      assert coefficients[..j + 1][..j] == coefficients[..j];
      totalCoeff := totalCoeff + coefficients[j];
    }
    assert coefficients[..|coefficients|] == coefficients;
  }

  /** `sumConstantValues`: one accumulator loop over the parsed constants. */
  method SumConstantValues(parse: Parser, constantsList: seq<string>) returns (total: real)
    ensures total == Total(ConstantValues(parse, constantsList))
  {
    total := 0.0;
    ghost var values := ConstantValues(parse, constantsList);
    for i := 0 to |constantsList|
      invariant total == Total(values[..i])
    {
      assert values[..i + 1][..i] == values[..i];
      var value := ValueOrZero(parse(constantsList[i]));
      total := total + value;
    }
    assert values[..|constantsList|] == values;
  }

  /**
   * Both sums are additive over concatenated term lists, so a list sums to
   * the sum of its per-term parses whatever way it is cut.
   */
  lemma SumsAppend(parse: Parser, xs: seq<string>, ys: seq<string>)
    ensures Total(CoefficientValues(parse, xs + ys))
         == Total(CoefficientValues(parse, xs)) + Total(CoefficientValues(parse, ys))
    ensures Total(ConstantValues(parse, xs + ys))
         == Total(ConstantValues(parse, xs)) + Total(ConstantValues(parse, ys))
  {
    assert CoefficientValues(parse, xs + ys) == CoefficientValues(parse, xs) + CoefficientValues(parse, ys);
    assert ConstantValues(parse, xs + ys) == ConstantValues(parse, xs) + ConstantValues(parse, ys);
    TotalAppend(CoefficientValues(parse, xs), CoefficientValues(parse, ys));
    TotalAppend(ConstantValues(parse, xs), ConstantValues(parse, ys));
  }

  /**
   * Outside the table, the coefficient of a term is exactly the text before
   * its first 'x'.
   */
  lemma CoefficientBeforeX(c: string, rest: string)
    requires 'x' !in c
    requires c + "x" + rest !in ["x", "+x", "-x", "x^2", "+x^2", "x^3", "+x^3"]
    ensures CoefficientText(c + "x" + rest) == c
  {
    var ax := c + "x" + rest;
    assert ax[..|c|] == c && ax[|c|] == 'x';
  }

  /** Coefficient texts of signed terms. */
  lemma CoefficientTextCases()
    ensures CoefficientText("4x") == "4" && CoefficientText("-2x") == "-2"
    ensures CoefficientText("+3x^2") == "+3"
  {
    assert "4" + "x" + "" == "4x";
    CoefficientBeforeX("4", "");
    assert "-2" + "x" + "" == "-2x";
    CoefficientBeforeX("-2", "");
    assert "+3" + "x" + "^2" == "+3x^2";
    CoefficientBeforeX("+3", "^2");
  }

  /** The bare negative powers are not in the rewrite table: their coefficient text is "-". */
  lemma BareNegativeCoefficients()
    ensures CoefficientText("-x^2") == "-" && CoefficientText("-x^3") == "-"
  {
    assert "-" + "x" + "^2" == "-x^2";
    CoefficientBeforeX("-", "^2");
    assert "-" + "x" + "^3" == "-x^3";
    CoefficientBeforeX("-", "^3");
  }

  /**
   * Since "-" does not parse, a bare "-x^2" or "-x^3" term adds nothing to
   * its bucket's sum (rather than the intended -1).
   */
  lemma BareNegativePowersAddNothing(parse: Parser, variables: seq<string>)
    requires parse("-") == None
    ensures Total(CoefficientValues(parse, variables + ["-x^2"])) == Total(CoefficientValues(parse, variables))
    ensures Total(CoefficientValues(parse, variables + ["-x^3"])) == Total(CoefficientValues(parse, variables))
  {
    BareNegativeCoefficients();
    SumsAppend(parse, variables, ["-x^2"]);
    SumsAppend(parse, variables, ["-x^3"]);
    assert CoefficientValues(parse, ["-x^2"]) == [0.0];
    assert CoefficientValues(parse, ["-x^3"]) == [0.0];
    assert [0.0][..0] == [];
  }

  /**
   * The documented example of `sumVariableValues`: x, +3x and -5x add up to
   * -1, given that the numerals parse to their values.
   */
  lemma SumExample(parse: Parser, variables: seq<string>)
    requires parse("1") == Some(1.0) && parse("+3") == Some(3.0) && parse("-5") == Some(-5.0)
    requires variables == ["x", "+3x", "-5x"]
    ensures Total(CoefficientValues(parse, variables)) == -1.0
  {
    assert CoefficientText("x") == "1";
    assert CoefficientText("+3x") == "+3" by {
      assert "+3" + "x" + "" == "+3x";
      CoefficientBeforeX("+3", "");
    }
    assert CoefficientText("-5x") == "-5" by {
      assert "-5" + "x" + "" == "-5x";
      CoefficientBeforeX("-5", "");
    }
    CoefficientValueAt(parse, variables, 0, "1", 1.0);
    CoefficientValueAt(parse, variables, 1, "+3", 3.0);
    CoefficientValueAt(parse, variables, 2, "-5", -5.0);
    TotalOfThree(CoefficientValues(parse, variables));
  }

  /** The coefficient of one term, from its coefficient text and the parse of that text. */
  lemma CoefficientValueAt(parse: Parser, variables: seq<string>, k: nat, text: string, v: real)
    requires k < |variables| && CoefficientText(variables[k]) == text && parse(text) == Some(v)
    ensures CoefficientValues(parse, variables)[k] == v
  {
  }

  /** The sum of three numbers. */
  lemma TotalOfThree(xs: seq<real>)
    requires |xs| == 3
    ensures Total(xs) == xs[0] + xs[1] + xs[2]
  {
    var two := xs[..2];
    var one := two[..1];
    assert one[..0] == [] && xs[..|xs| - 1] == two && two[..|two| - 1] == one;
    assert Total(one) == xs[0];
    assert Total(two) == xs[0] + xs[1];
  }
}
