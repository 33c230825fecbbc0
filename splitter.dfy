/**
 * The splitter and side-balancer (`splitEquation`, `changeSign`): cuts the
 * normalised equation at ';', sorts the pieces into variable terms and
 * constants, drops the '=' marker and flips the sign of every term that
 * comes after it.
 */
module Splitter {
  import opened Text

  /**
   * `changeSign`: with the flag clear the answer is "". With the flag set, a
   * value holding a '+' has every '+' turned into '-'; otherwise a value
   * holding a '-' has every '-' turned into '+'; otherwise '-' is put in
   * front. The fourth case of the source (prepend '+') can never be reached,
   * since every value without '+' is already caught by the third.
   */
  function ChangeSign(value: string, flag: bool): (r: string)
    ensures !flag ==> r == ""
    ensures flag && '+' in value ==>
      |r| == |value| && '+' !in r
      && forall i :: 0 <= i < |value| ==> r[i] == if value[i] == '+' then '-' else value[i]
    ensures flag && '+' !in value && '-' in value ==>
      |r| == |value| && '-' !in r
      && forall i :: 0 <= i < |value| ==> r[i] == if value[i] == '-' then '+' else value[i]
    ensures flag && '+' !in value && '-' !in value ==> r == "-" + value
    ensures flag ==> ('x' in r <==> 'x' in value) && ('=' in r <==> '=' in value)
  {
    if '+' in value && flag then ReplaceAll(value, '+', '-')
    else if '-' in value && flag then ReplaceAll(value, '-', '+')
    else if '+' !in value && flag then "-" + value
    else if '-' !in value && flag then "+" + value
    else ""
  }

  /**
   * Flipping twice restores a value that holds exactly one kind of sign;
   * a value with no sign at all comes back with an explicit '+'.
   */
  lemma ChangeSignTwice(value: string)
    ensures ('+' in value) != ('-' in value) ==> ChangeSign(ChangeSign(value, true), true) == value
    ensures '+' !in value && '-' !in value ==> ChangeSign(ChangeSign(value, true), true) == "+" + value
  {
    var once := ChangeSign(value, true);
    var twice := ChangeSign(once, true);
    if '+' in value && '-' !in value {
      assert forall i :: 0 <= i < |value| ==> value[i] != '-';
      assert '-' in once by {
        var k :| 0 <= k < |value| && value[k] == '+';
        assert once[k] == '-';
      }
      assert twice == value;
    } else if '-' in value && '+' !in value {
      assert forall i :: 0 <= i < |value| ==> value[i] != '+';
      var k :| 0 <= k < |value| && value[k] == '-';
      assert once[k] == '+';
      assert twice == value;
    } else if '+' !in value && '-' !in value {
      assert once == "-" + value;
      assert '+' !in once by {
        assert forall i :: 0 < i < |once| ==> once[i] == value[i - 1];
      }
      assert twice == "+" + value;
    }
  }

  /** A piece that switches the splitter to the right-hand side: an '=' and no 'x'. */
  predicate IsMarker(value: string)
  {
    'x' !in value && '=' in value
  }

  /** The index of the first marker piece, or the number of pieces when there is none. */
  function Marker(pieces: seq<string>): (m: nat)
    ensures m <= |pieces|
    ensures m < |pieces| ==> IsMarker(pieces[m])
    ensures forall j :: 0 <= j < m ==> !IsMarker(pieces[j])
  {
    if pieces == [] then 0
    else if IsMarker(pieces[0]) then 0
    else 1 + Marker(pieces[1..])
  }

  /**
   * The pieces as the splitter sees them: up to and including the first
   * marker they are unchanged, after it each one is flipped by `changeSign`.
   */
  function Sided(pieces: seq<string>): (r: seq<string>)
    ensures |r| == |pieces|
  {
    var m := Marker(pieces);
    seq(|pieces|, i requires 0 <= i < |pieces| => if i > m then ChangeSign(pieces[i], true) else pieces[i])
  }

  /** The values holding an 'x', in their order. */
  function XTerms(values: seq<string>): (r: seq<string>)
    ensures |r| <= |values|
  {
    if values == [] then []
    else
      var last := values[|values| - 1];
      XTerms(values[..|values| - 1]) + (if 'x' in last then [last] else [])
  }

  /** The values holding neither an 'x' nor an '=', in their order. */
  function ConstTerms(values: seq<string>): (r: seq<string>)
    ensures |r| <= |values|
  {
    if values == [] then []
    else
      var last := values[|values| - 1];
      ConstTerms(values[..|values| - 1]) + (if 'x' !in last && '=' !in last then [last] else [])
  }

  /** A value is collected as a variable term exactly when it is one of the values and holds an 'x'. */
  lemma {:induction false} XTermsExact(values: seq<string>)
    ensures forall v :: v in XTerms(values) <==> v in values && 'x' in v
    decreases |values|
  {
    if values != [] {
      var init := values[..|values| - 1];
      XTermsExact(init);
      assert values == init + [values[|values| - 1]];
    }
  }

  /** A value is collected as a constant exactly when it is one of the values and holds neither 'x' nor '='. */
  lemma {:induction false} ConstTermsExact(values: seq<string>)
    ensures forall v :: v in ConstTerms(values) <==> v in values && 'x' !in v && '=' !in v
    decreases |values|
  {
    if values != [] {
      var init := values[..|values| - 1];
      ConstTermsExact(init);
      assert values == init + [values[|values| - 1]];
    }
  }

  /**
   * `splitEquation`: one pass over the ';'-pieces with the flag
   * `isOverEqualSign`. The variable terms and the constants are exactly the
   * pieces of `Sided` that hold an 'x', and those that hold neither 'x' nor
   * '=', each list in the input's order: so every piece after the marker
   * reaches a list only through `changeSign`.
   */
  method SplitEquation(equation: string) returns (xVariables: seq<string>, constants: seq<string>)
    ensures xVariables == XTerms(Sided(Split(equation, ';')))
    ensures constants == ConstTerms(Sided(Split(equation, ';')))
  {
    var isOverEqualSign := false;
    var pieces := Split(equation, ';');
    ghost var sided := Sided(pieces);
    xVariables, constants := [], [];
    for i := 0 to |pieces|
      invariant isOverEqualSign <==> Marker(pieces) < i
      invariant xVariables == XTerms(sided[..i])
      invariant constants == ConstTerms(sided[..i])
    {
      var value := pieces[i];
      if isOverEqualSign {
        value := ChangeSign(value, true);
      }
      MarkerStep(pieces, i);
      SortStep(sided, i);
      if 'x' in value {
        xVariables := xVariables + [value];
      } else if '=' in value {
        isOverEqualSign := true;
      } else {
        constants := constants + [value];
      }
    }
    assert sided[..|pieces|] == sided;
  }

  /** Before the marker has been passed, piece `i` is the marker exactly when it looks like one. */
  lemma MarkerStep(pieces: seq<string>, i: nat)
    requires i < |pieces|
    ensures Marker(pieces) >= i ==> (Marker(pieces) == i <==> IsMarker(pieces[i]))
    ensures Sided(pieces)[i] == if i > Marker(pieces) then ChangeSign(pieces[i], true) else pieces[i]
  {
  }

  /** Extending a prefix of the pieces by one piece extends each list by at most that piece. */
  lemma SortStep(values: seq<string>, i: nat)
    requires i < |values|
    ensures XTerms(values[..i + 1]) == XTerms(values[..i]) + (if 'x' in values[i] then [values[i]] else [])
    ensures ConstTerms(values[..i + 1])
         == ConstTerms(values[..i]) + (if 'x' !in values[i] && '=' !in values[i] then [values[i]] else [])
  {
    assert values[..i + 1][..i] == values[..i];
  }

  /** Splitting the normalised form of "x^2+3=1" into its two lists. */
  lemma SplitExample(e: string)
    requires e == "x^2;+3;=;1"
    ensures Split(e, ';') == ["x^2", "+3", "=", "1"]
    ensures XTerms(Sided(Split(e, ';'))) == ["x^2"]
    ensures ConstTerms(Sided(Split(e, ';'))) == ["+3", "-1"]
  {
    var pieces := ["x^2", "+3", "=", "1"];
    assert e == Join(pieces, ';') by {
      assert pieces[1..][1..] == pieces[2..] && pieces[2..][1..] == pieces[3..];
    }
    SplitJoin(pieces, ';');
    SidedExample(pieces);
    SortedExample(Sided(pieces));
  }

  /** The piece after the marker is the only one flipped. */
  lemma SidedExample(pieces: seq<string>)
    requires pieces == ["x^2", "+3", "=", "1"]
    ensures Sided(pieces) == ["x^2", "+3", "=", "-1"]
  {
    assert Marker(pieces) == 2 by {
      assert !IsMarker(pieces[0]) && !IsMarker(pieces[1]) && IsMarker(pieces[2]);
      assert pieces[1..][1..] == pieces[2..];
    }
    assert ChangeSign("1", true) == "-1";
  }

  /** Sorting a variable term, a constant, the marker and another constant. */
  lemma SortFour(values: seq<string>)
    requires |values| == 4
    requires 'x' in values[0] && 'x' !in values[1] && '=' !in values[1]
    requires 'x' !in values[2] && '=' in values[2]
    requires 'x' !in values[3] && '=' !in values[3]
    ensures XTerms(values) == [values[0]]
    ensures ConstTerms(values) == [values[1], values[3]]
  {
    assert values[..0] == [];
    SortStep(values, 0);
    SortStep(values, 1);
    SortStep(values, 2);
    SortStep(values, 3);
    assert values[..4] == values;
  }

  /** The two lists taken from the balanced pieces. */
  lemma SortedExample(sided: seq<string>)
    requires sided == ["x^2", "+3", "=", "-1"]
    ensures XTerms(sided) == ["x^2"]
    ensures ConstTerms(sided) == ["+3", "-1"]
  {
    assert sided[0][0] == 'x' && sided[2][0] == '=';
    assert |sided[1]| == 2 && sided[1][0] == '+' && sided[1][1] == '3';
    assert |sided[3]| == 2 && sided[3][0] == '-' && sided[3][1] == '1';
    SortFour(sided);
  }
}
