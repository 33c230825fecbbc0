/**
 * Power bucketing (`separatePowers`): sorts the variable terms into the
 * first-, second- and third-degree lists by substring tests run in the
 * order "x^3", "x^2", "x".
 */
module Powers {
  import opened Text
  import opened Splitter

  /**
   * The bucket a term falls into: 3 when it holds "x^3", else 2 when it
   * holds "x^2", else 1 when it holds 'x', else 0 (no bucket). A term lands
   * in some bucket exactly when it holds an 'x'.
   */
  function Degree(v: string): (d: nat)
    ensures d <= 3
    ensures d == 0 <==> 'x' !in v
    ensures d == 3 <==> HasSubstring(v, "x^3")
    ensures d == 2 <==> !HasSubstring(v, "x^3") && HasSubstring(v, "x^2")
  {
    if HasSubstring(v, "x^3") then
      SubstringCharIn(v, "x^3", 0);
      3
    else if HasSubstring(v, "x^2") then
      SubstringCharIn(v, "x^2", 0);
      2
    else if 'x' in v then 1
    else 0
  }

  /** The terms of degree `d`, in their order. */
  function Bucket(values: seq<string>, d: nat): (r: seq<string>)
    ensures forall v :: v in r ==> v in values && Degree(v) == d
    ensures |r| <= |values|
  {
    if values == [] then []
    else
      var last := values[|values| - 1];
      Bucket(values[..|values| - 1], d) + (if Degree(last) == d then [last] else [])
  }

  /**
   * `separatePowers`: one pass that appends each term to the list of its
   * degree; the three lists are the degree-1, -2 and -3 buckets, each in the
   * input's order, and terms without an 'x' are dropped.
   */
  method SeparatePowers(variablesList: seq<string>)
    returns (firstDegVar: seq<string>, secondDegVar: seq<string>, thirdDegVar: seq<string>)
    ensures firstDegVar == Bucket(variablesList, 1)
    ensures secondDegVar == Bucket(variablesList, 2)
    ensures thirdDegVar == Bucket(variablesList, 3)
  {
    firstDegVar, secondDegVar, thirdDegVar := [], [], [];
    for i := 0 to |variablesList|
      invariant firstDegVar == Bucket(variablesList[..i], 1)
      invariant secondDegVar == Bucket(variablesList[..i], 2)
      invariant thirdDegVar == Bucket(variablesList[..i], 3)
    {
      var variable := variablesList[i];
      assert variablesList[..i + 1][..i] == variablesList[..i];
      if HasSubstring(variable, "x^3") {
        thirdDegVar := thirdDegVar + [variable];
      } else if HasSubstring(variable, "x^2") {
        secondDegVar := secondDegVar + [variable];
      } else if 'x' in variable {
        firstDegVar := firstDegVar + [variable];
      }
    }
    assert variablesList[..|variablesList|] == variablesList;
  }

  /**
   * Every term holding an 'x' lands in exactly one of the three buckets:
   * together they are the variable terms, counted with multiplicity.
   */
  lemma {:induction false} BucketsPartition(values: seq<string>)
    ensures multiset(Bucket(values, 1)) + multiset(Bucket(values, 2)) + multiset(Bucket(values, 3))
         == multiset(XTerms(values))
  {
    if values != [] {
      var init := values[..|values| - 1];
      var last := values[|values| - 1];
      BucketsPartition(init);
      var d := Degree(last);
      assert d != 0 <==> 'x' in last;
    }
  }

  /** The first-degree bucket holds no "x^2" or "x^3" term, the second no "x^3" term. */
  lemma LowerBucketsExcludeHigherPowers(values: seq<string>)
    ensures forall v :: v in Bucket(values, 1) ==> !HasSubstring(v, "x^2") && !HasSubstring(v, "x^3")
    ensures forall v :: v in Bucket(values, 2) ==> !HasSubstring(v, "x^3")
  {
  }
}
