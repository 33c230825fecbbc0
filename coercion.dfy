/**
 * Complex-to-real coercion (`complexToReal`): roots whose imaginary part is
 * zero are moved from the complex list to the real list.
 *
 * The source removes entries with `append(s[:i], s[i+1:]...)` while it
 * ranges over the same slice. `range` fixed the length and the backing
 * array when the loop started, so every iteration reads `A[i]` from an
 * array that earlier removals have already shifted. `ComplexToRealAsWritten`
 * reproduces this with an array and a live length; `ComplexToReal` is the
 * intended partition, which the rest of the model uses.
 */
module Coercion {
  import opened Types

  /** The real part of a root with zero imaginary part, as a list of at most one. */
  function RealPart(c: Complex): seq<real>
  {
    if c.im == 0.0 then [c.re] else []
  }

  /** A root with non-zero imaginary part, as a list of at most one. */
  function ComplexPart(c: Complex): seq<Complex>
  {
    if c.im != 0.0 then [c] else []
  }

  /** The real parts of the entries with zero imaginary part, in order. */
  function ZeroImagParts(cs: seq<Complex>): (r: seq<real>)
    ensures |r| <= |cs|
  {
    if cs == [] then []
    else RealPart(cs[0]) + ZeroImagParts(cs[1..])
  }

  /** The entries with a non-zero imaginary part, in order. */
  function NonZeroImag(cs: seq<Complex>): (r: seq<Complex>)
    ensures |r| <= |cs|
  {
    if cs == [] then []
    else ComplexPart(cs[0]) + NonZeroImag(cs[1..])
  }

  /** A value is among the real parts exactly when some entry with zero imaginary part has it as its real part. */
  lemma {:induction false} ZeroImagPartsExact(cs: seq<Complex>)
    ensures forall x :: x in ZeroImagParts(cs) <==> exists c :: c in cs && c.im == 0.0 && c.re == x
  {
    if cs != [] {
      ZeroImagPartsExact(cs[1..]);
      assert cs == [cs[0]] + cs[1..];
    }
  }

  /** An entry is kept as complex exactly when it is one of the roots and its imaginary part is not zero. */
  lemma {:induction false} NonZeroImagExact(cs: seq<Complex>)
    ensures forall c :: c in NonZeroImag(cs) <==> c in cs && c.im != 0.0
  {
    if cs != [] {
      NonZeroImagExact(cs[1..]);
      assert cs == [cs[0]] + cs[1..];
    }
  }

  /** Every entry goes to exactly one side of the partition. */
  lemma {:induction false} PartitionSizes(cs: seq<Complex>)
    ensures |ZeroImagParts(cs)| + |NonZeroImag(cs)| == |cs|
  {
    if cs != [] {
      PartitionSizes(cs[1..]);
    }
  }

  /** No entry has a zero imaginary part. */
  predicate AllComplex(cs: seq<Complex>)
  {
    forall c :: c in cs ==> c.im != 0.0
  }

  /** A list without zero imaginary parts is left as it is by the partition. */
  lemma {:induction false} PartitionOfAllComplex(cs: seq<Complex>)
    requires AllComplex(cs)
    ensures ZeroImagParts(cs) == [] && NonZeroImag(cs) == cs
  {
    if cs != [] {
      assert forall c :: c in cs[1..] ==> c in cs;
      PartitionOfAllComplex(cs[1..]);
      assert [cs[0]] + cs[1..] == cs;
    }
  }

  /**
   * `complexToReal` as intended: the real parts of the zero-imaginary roots
   * are appended to the real list once each, in order; the complex list
   * keeps exactly the other roots, in order; the error text is kept. No
   * root is lost or duplicated.
   */
  function ComplexToReal(solution: EquationSolution): (r: EquationSolution)
    ensures r.errorDescription == solution.errorDescription
    ensures r.realSolutions == solution.realSolutions + ZeroImagParts(solution.complexSolutions)
    ensures r.complexSolutions == NonZeroImag(solution.complexSolutions)
    ensures forall c :: c in r.complexSolutions ==> c in solution.complexSolutions && c.im != 0.0
    ensures |r.realSolutions| + |r.complexSolutions|
         == |solution.realSolutions| + |solution.complexSolutions|
  {
    PartitionSizes(solution.complexSolutions);
    NonZeroImagExact(solution.complexSolutions);
    EquationSolution(
      solution.realSolutions + ZeroImagParts(solution.complexSolutions),
      NonZeroImag(solution.complexSolutions),
      solution.errorDescription)
  }

  /** Coercing a second time changes nothing. */
  lemma ComplexToRealIdempotent(solution: EquationSolution)
    ensures ComplexToReal(ComplexToReal(solution)) == ComplexToReal(solution)
  {
    var once := ComplexToReal(solution);
    PartitionOfAllComplex(once.complexSolutions);
    assert once.realSolutions + [] == once.realSolutions;
  }

  /**
   * The source's slice bounds hold: with two entries that both have zero
   * imaginary part, the second iteration would take `s[2:]` of a slice of
   * length 1 and panic.
   */
  predicate InBounds(cs: seq<Complex>)
  {
    !(|cs| == 2 && cs[0].im == 0.0 && cs[1].im == 0.0)
  }

  /** The backing array after the first iteration. */
  function AfterFirst(cs: seq<Complex>): (r: seq<Complex>)
    ensures |r| == |cs|
  {
    if |cs| > 1 && cs[0].im == 0.0 then Shifted(cs, 0, |cs|) else cs
  }

  /** The slice length after the first iteration (0 once it is replaced by an empty slice). */
  function LiveAfterFirst(cs: seq<Complex>): (n: nat)
    ensures n <= |cs|
  {
    if |cs| > 0 && cs[0].im == 0.0 then |cs| - 1 else |cs|
  }

  /** The second iteration removes an entry: the entry it reads has a zero imaginary part. */
  predicate SecondRemoves(cs: seq<Complex>)
  {
    |cs| >= 2 && AfterFirst(cs)[1].im == 0.0
  }

  /** The backing array after the second iteration. */
  function AfterSecond(cs: seq<Complex>): (r: seq<Complex>)
    requires InBounds(cs)
    ensures |r| == |cs|
  {
    var b, live := AfterFirst(cs), LiveAfterFirst(cs);
    if SecondRemoves(cs) then Shifted(b, 1, live) else b
  }

  /** The slice length after the second iteration. */
  function LiveAfterSecond(cs: seq<Complex>): (n: nat)
    requires InBounds(cs)
    ensures n <= |cs|
  {
    if SecondRemoves(cs) then LiveAfterFirst(cs) - 1 else LiveAfterFirst(cs)
  }

  /** What the iterations from index 2 on read: the array after the second iteration, past index 1. */
  function LaterReads(cs: seq<Complex>): seq<Complex>
    requires InBounds(cs)
  {
    if |cs| >= 2 then AfterSecond(cs)[2..] else []
  }

  /** Shifting only moves entries of the array around. */
  lemma ShiftedFrom(b: seq<Complex>, from: nat, live: nat)
    requires from < live <= |b|
    ensures forall c :: c in Shifted(b, from, live) ==> c in b
  {
    forall c | c in Shifted(b, from, live)
      ensures c in b
    {
      var k :| 0 <= k < |b| && Shifted(b, from, live)[k] == c;
      if k < from {
        assert b[k] == c;
      } else if k < live - 1 {
        assert b[k + 1] == c;
      } else {
        assert b[k] == c;
      }
    }
  }

  /** The arrays the iterations read hold only entries of the original list. */
  lemma ReadsFrom(cs: seq<Complex>)
    requires InBounds(cs)
    ensures forall c :: c in AfterFirst(cs) ==> c in cs
    ensures forall c :: c in AfterSecond(cs) ==> c in cs
    ensures forall c :: c in LaterReads(cs) ==> c in cs
  {
    if |cs| > 1 && cs[0].im == 0.0 {
      ShiftedFrom(cs, 0, |cs|);
    }
    if SecondRemoves(cs) {
      ShiftedFrom(AfterFirst(cs), 1, LiveAfterFirst(cs));
    }
  }

  /**
   * The real parts `complexToReal` appends as written. Iteration 0 reads the
   * first root; iteration 1 reads index 1 of the array after the first
   * removal; every later iteration reads the array after the second removal.
   */
  function AsWrittenAppended(cs: seq<Complex>): seq<real>
    requires InBounds(cs)
  {
    var first := if |cs| > 0 && cs[0].im == 0.0 then [cs[0].re] else [];
    var second := if SecondRemoves(cs) then [AfterFirst(cs)[1].re] else [];
    first + second + ZeroImagParts(LaterReads(cs))
  }

  /** Every appended real is the real part of a root with zero imaginary part. */
  lemma AsWrittenAppendedFrom(cs: seq<Complex>)
    requires InBounds(cs)
    ensures forall x :: x in AsWrittenAppended(cs) ==> exists c :: c in cs && c.im == 0.0 && c.re == x
  {
    ReadsFrom(cs);
    ZeroImagPartsExact(LaterReads(cs));
    forall x | x in AsWrittenAppended(cs)
      ensures exists c :: c in cs && c.im == 0.0 && c.re == x
    {
      if |cs| > 0 && cs[0].im == 0.0 && x == cs[0].re {
        assert cs[0] in cs;
      } else if SecondRemoves(cs) && x == AfterFirst(cs)[1].re {
        assert AfterFirst(cs)[1] in AfterFirst(cs);
      } else {
        assert x in ZeroImagParts(LaterReads(cs));
      }
    }
  }

  /**
   * The complex list `complexToReal` leaves as written: the live part of the
   * array after the second removal, or nothing once a later iteration has
   * replaced the slice by an empty one.
   */
  function AsWrittenComplex(cs: seq<Complex>): (r: seq<Complex>)
    requires InBounds(cs)
    ensures |r| <= |cs|
  {
    if ZeroImagParts(LaterReads(cs)) != [] then [] else AfterSecond(cs)[..LiveAfterSecond(cs)]
  }

  /** What `complexToReal` returns as written. */
  function AsWrittenCoercion(solution: EquationSolution): EquationSolution
    requires InBounds(solution.complexSolutions)
  {
    EquationSolution(
      solution.realSolutions + AsWrittenAppended(solution.complexSolutions),
      AsWrittenComplex(solution.complexSolutions),
      solution.errorDescription)
  }

  /**
   * As written, the real list grows only by real parts of roots with zero
   * imaginary part, the complex list only loses entries, and the error text
   * is kept.
   */
  lemma AsWrittenProvenance(solution: EquationSolution)
    requires InBounds(solution.complexSolutions)
    ensures AsWrittenCoercion(solution).errorDescription == solution.errorDescription
    ensures |AsWrittenCoercion(solution).realSolutions| >= |solution.realSolutions|
    ensures AsWrittenCoercion(solution).realSolutions[..|solution.realSolutions|] == solution.realSolutions
    ensures forall x :: x in AsWrittenCoercion(solution).realSolutions[|solution.realSolutions|..] ==>
      exists c :: c in solution.complexSolutions && c.im == 0.0 && c.re == x
    ensures |AsWrittenCoercion(solution).complexSolutions| <= |solution.complexSolutions|
    ensures forall c :: c in AsWrittenCoercion(solution).complexSolutions ==> c in solution.complexSolutions
  {
    var cs := solution.complexSolutions;
    var r := AsWrittenCoercion(solution);
    assert r.realSolutions[|solution.realSolutions|..] == AsWrittenAppended(cs);
    AsWrittenAppendedFrom(cs);
    ReadsFrom(cs);
  }

  /**
   * `append(s[:from], s[from+1:]...)` on the first `live` entries of an
   * array: the entries after `from` move one place left and the rest of the
   * array, including the old last live entry, stays where it was.
   */
  function Shifted(b: seq<Complex>, from: nat, live: nat): (r: seq<Complex>)
    requires from < live <= |b|
    ensures |r| == |b|
  {
    b[..from] + b[from + 1..live] + b[live - 1..]
  }

  /** The state of the array before iteration `i`. */
  function BackingAt(cs: seq<Complex>, i: nat): (r: seq<Complex>)
    requires InBounds(cs)
    ensures |r| == |cs|
  {
    if i == 0 then cs else if i == 1 then AfterFirst(cs) else AfterSecond(cs)
  }

  /** The slice length before iteration `i`. */
  function LiveAt(cs: seq<Complex>, i: nat): (n: nat)
    requires InBounds(cs) && (2 <= i ==> i <= |cs|)
    ensures n <= |cs|
  {
    if i == 0 then |cs|
    else if i == 1 then LiveAfterFirst(cs)
    else if ZeroImagParts(AfterSecond(cs)[2..i]) == [] then LiveAfterSecond(cs)
    else 0
  }

  /** The real parts appended before iteration `i`. */
  function AppendedAt(cs: seq<Complex>, i: nat): seq<real>
    requires InBounds(cs) && (2 <= i ==> i <= |cs|)
  {
    var first := if |cs| > 0 && cs[0].im == 0.0 then [cs[0].re] else [];
    var second := if SecondRemoves(cs) then [AfterFirst(cs)[1].re] else [];
    if i == 0 then []
    else if i == 1 then first
    else ReadFrom(first + second, AfterSecond(cs), i)
  }

  /** The real parts appended by the first two iterations, then those read from index 2 up to `i`. */
  function ReadFrom(early: seq<real>, b: seq<Complex>, i: nat): seq<real>
    requires 2 <= i <= |b|
  {
    early + ZeroImagParts(b[2..i])
  }

  /** Whether iteration `i` shifts the array rather than dropping the whole slice. */
  predicate Shifts(i: nat, live: nat)
  {
    (i == 0 && 1 < live) || i == 1
  }

  /** One iteration of the loop, in terms of the state before it. */
  predicate Step(cs: seq<Complex>, i: nat)
    requires InBounds(cs) && i < |cs|
  {
    var b, live := BackingAt(cs, i), LiveAt(cs, i);
    (b[i].im == 0.0 && Shifts(i, live) ==> i < live)
    && BackingAt(cs, i + 1)
       == (if b[i].im == 0.0 && Shifts(i, live) then Shifted(b, i, live) else b)
    && LiveAt(cs, i + 1)
       == (if b[i].im != 0.0 then live else if Shifts(i, live) then live - 1 else 0)
    && AppendedAt(cs, i + 1)
       == AppendedAt(cs, i) + (if b[i].im == 0.0 then [b[i].re] else [])
  }

  /** Every iteration is the step above. */
  lemma StepAt(cs: seq<Complex>, i: nat)
    requires InBounds(cs) && i < |cs|
    ensures Step(cs, i)
  {
    if i == 0 {
      StepFirst(cs);
    } else if i == 1 {
      StepSecond(cs);
    } else {
      StepLater(cs, i);
    }
  }

  /** Iteration 0 shifts the array when the first root is real and another follows. */
  lemma StepFirst(cs: seq<Complex>)
    requires InBounds(cs) && 0 < |cs|
    ensures Step(cs, 0)
  {
    assert BackingAt(cs, 0) == cs && LiveAt(cs, 0) == |cs| && AppendedAt(cs, 0) == [];
    assert BackingAt(cs, 1) == AfterFirst(cs) && LiveAt(cs, 1) == LiveAfterFirst(cs);
    if cs[0].im == 0.0 {
      assert AppendedAt(cs, 1) == [] + [cs[0].re];
    } else {
      assert AppendedAt(cs, 1) == [];
    }
  }

  /** Iteration 1 reads the shifted array and shifts it again on a real root. */
  lemma StepSecond(cs: seq<Complex>)
    requires InBounds(cs) && 1 < |cs|
    ensures Step(cs, 1)
  {
    assert AfterSecond(cs)[2..2] == [];
  }

  /** Later iterations leave the array alone and drop the whole slice on a real root. */
  lemma StepLater(cs: seq<Complex>, i: nat)
    requires InBounds(cs) && 2 <= i < |cs|
    ensures Step(cs, i)
  {
    var b := AfterSecond(cs);
    assert BackingAt(cs, i) == b && BackingAt(cs, i + 1) == b;
    assert !Shifts(i, LiveAt(cs, i));
    LaterLive(cs, i);
    LaterAppended(cs, i);
  }

  /** From index 2 on, the slice length drops to 0 at the first real root read. */
  lemma LaterLive(cs: seq<Complex>, i: nat)
    requires InBounds(cs) && 2 <= i < |cs|
    ensures LiveAt(cs, i + 1) == if AfterSecond(cs)[i].im != 0.0 then LiveAt(cs, i) else 0
  {
    ReadOneMore(AfterSecond(cs), i);
  }

  /** From index 2 on, every real root read appends its real part. */
  lemma LaterAppended(cs: seq<Complex>, i: nat)
    requires InBounds(cs) && 2 <= i < |cs|
    ensures AppendedAt(cs, i + 1) == AppendedAt(cs, i) + RealPart(AfterSecond(cs)[i])
  {
    var first := if cs[0].im == 0.0 then [cs[0].re] else [];
    var second := if SecondRemoves(cs) then [AfterFirst(cs)[1].re] else [];
    ReadFromStep(first + second, AfterSecond(cs), i);
  }

  /** Reading one more entry from index 2 on appends its real part, if any. */
  lemma ReadFromStep(early: seq<real>, b: seq<Complex>, i: nat)
    requires 2 <= i < |b|
    ensures ReadFrom(early, b, i + 1) == ReadFrom(early, b, i) + RealPart(b[i])
  {
    ReadOneMore(b, i);
    assert early + (ZeroImagParts(b[2..i]) + RealPart(b[i]))
        == (early + ZeroImagParts(b[2..i])) + RealPart(b[i]);
  }

  /** The real parts read from index 2 up to `i`, extended by one entry. */
  lemma ReadOneMore(b: seq<Complex>, i: nat)
    requires 2 <= i < |b|
    ensures ZeroImagParts(b[2..i + 1]) == ZeroImagParts(b[2..i]) + RealPart(b[i])
  {
    assert b[2..i + 1] == b[2..i] + [b[i]];
    ZeroImagPartsSnoc(b[2..i], b[i]);
  }

  /**
   * `complexToReal` as written: ranges over the slice fixed at the start,
   * reading each entry from the shared array, shifting the live entries left
   * on removals at indices 0 and 1, and replacing the slice by an empty one
   * otherwise. The fresh empty slice is modelled by a live length of 0; the
   * array the loop reads is not touched by it.
   */
  method ComplexToRealAsWritten(solution: EquationSolution) returns (result: EquationSolution)
    requires InBounds(solution.complexSolutions)
    ensures result == AsWrittenCoercion(solution)
  {
    var cs := solution.complexSolutions;
    var n := |cs|;
    var backing := new Complex[n](k requires 0 <= k < n => cs[k]);
    var live := n;
    var reals := solution.realSolutions;
    assert backing[..] == cs;
    for i := 0 to n
      invariant backing.Length == n
      invariant backing[..] == BackingAt(cs, i)
      invariant live == LiveAt(cs, i)
      invariant reals == solution.realSolutions + AppendedAt(cs, i)
    {
      live, reals := Visit(backing, live, reals, cs, solution.realSolutions, i);
    }
    AsWrittenAtEnd(cs);
    result := EquationSolution(reals, backing[..live], solution.errorDescription);
  }

  /**
   * One iteration of the loop at index `i`: a root of zero imaginary part
   * adds its real part, then either shifts the live entries left (at index
   * 0 with another live entry after it, or at index 1) or empties the slice.
   */
  method Visit(backing: array<Complex>, live: nat, reals: seq<real>,
               ghost cs: seq<Complex>, ghost base: seq<real>, i: nat)
    returns (live': nat, reals': seq<real>)
    requires InBounds(cs) && i < |cs| == backing.Length
    requires backing[..] == BackingAt(cs, i) && live == LiveAt(cs, i)
    requires reals == base + AppendedAt(cs, i)
    modifies backing
    ensures backing[..] == BackingAt(cs, i + 1) && live' == LiveAt(cs, i + 1)
    ensures reals' == base + AppendedAt(cs, i + 1)
  {
    StepAt(cs, i);
    ghost var b := BackingAt(cs, i);
    live', reals' := live, reals;
    var complexSol := backing[i];
    assert complexSol == b[i];
    if complexSol.im == 0.0 {
      reals' := reals' + [complexSol.re];
      assert reals' == base + (AppendedAt(cs, i) + [b[i].re]);
      if i == 0 && i + 1 < live {
        ShiftLeft(backing, i, live);
        live' := live - 1;
      } else if i == 1 {
        ShiftLeft(backing, i, live);
        live' := live - 1;
      } else {
        live' := 0;
      }
    }
  }

  /** After the last iteration the state is the closed form. */
  lemma AsWrittenAtEnd(cs: seq<Complex>)
    requires InBounds(cs)
    ensures AppendedAt(cs, |cs|) == AsWrittenAppended(cs)
    ensures BackingAt(cs, |cs|)[..LiveAt(cs, |cs|)] == AsWrittenComplex(cs)
  {
    if |cs| >= 2 {
      assert AfterSecond(cs)[2..|cs|] == LaterReads(cs);
    }
  }

  /** The real parts of a list extended by one entry. */
  lemma {:induction false} ZeroImagPartsSnoc(cs: seq<Complex>, c: Complex)
    ensures ZeroImagParts(cs + [c]) == ZeroImagParts(cs) + RealPart(c)
  {
    if cs == [] {
      assert [] + [c] == [c];
    } else {
      assert (cs + [c])[1..] == cs[1..] + [c];
      ZeroImagPartsSnoc(cs[1..], c);
    }
  }

  /** The array step of `append(s[:from], s[from+1:]...)`, one entry at a time. */
  method ShiftLeft(a: array<Complex>, from: nat, live: nat)
    requires from < live <= a.Length
    modifies a
    ensures a[..] == Shifted(old(a[..]), from, live)
  {
    for k := from to live - 1
      invariant forall j :: 0 <= j < from ==> a[j] == old(a[j])
      invariant forall j :: from <= j < k ==> a[j] == old(a[j + 1])
      invariant forall j :: k <= j < a.Length ==> a[j] == old(a[j])
    {
      a[k] := a[k + 1];
    }
  }

  /** With no root of zero imaginary part, the as-written loop changes nothing. */
  lemma AsWrittenKeepsAllComplex(solution: EquationSolution)
    requires AllComplex(solution.complexSolutions)
    ensures InBounds(solution.complexSolutions)
    ensures AsWrittenCoercion(solution) == solution
  {
    var cs := solution.complexSolutions;
    if |cs| > 0 {
      assert cs[0] in cs;
    }
    if |cs| >= 2 {
      assert cs[1] in cs;
      ReadsFrom(cs);
      PartitionOfAllComplex(LaterReads(cs));
      assert AfterSecond(cs)[..LiveAfterSecond(cs)] == cs;
    }
  }

  /** The partition of two roots, root by root. */
  lemma PartitionOfTwo(cs: seq<Complex>)
    requires |cs| == 2
    ensures ZeroImagParts(cs) == RealPart(cs[0]) + RealPart(cs[1])
    ensures NonZeroImag(cs) == ComplexPart(cs[0]) + ComplexPart(cs[1])
  {
    assert cs[1..][1..] == [];
  }

  /** The partition of three roots, root by root. */
  lemma PartitionOfThree(cs: seq<Complex>)
    requires |cs| == 3
    ensures ZeroImagParts(cs) == RealPart(cs[0]) + RealPart(cs[1]) + RealPart(cs[2])
    ensures NonZeroImag(cs) == ComplexPart(cs[0]) + ComplexPart(cs[1]) + ComplexPart(cs[2])
  {
    PartitionOfTwo(cs[1..]);
  }

  /** On at most two roots the as-written loop is the intended partition. */
  lemma AsWrittenAgreesOnShortLists(solution: EquationSolution)
    requires InBounds(solution.complexSolutions) && |solution.complexSolutions| <= 2
    ensures AsWrittenCoercion(solution) == ComplexToReal(solution)
  {
    var cs := solution.complexSolutions;
    if |cs| == 2 {
      PartitionOfTwo(cs);
      assert LaterReads(cs) == [];
    } else if |cs| == 1 {
      assert cs[1..] == [];
    }
  }

  /**
   * Three roots of which only the first is real (the shape of a cubic with a
   * conjugate pair): the as-written loop is the intended partition.
   */
  lemma AsWrittenAgreesOnConjugatePair(solution: EquationSolution)
    requires |solution.complexSolutions| == 3
    requires solution.complexSolutions[0].im == 0.0
    requires solution.complexSolutions[1].im != 0.0 && solution.complexSolutions[2].im != 0.0
    ensures InBounds(solution.complexSolutions)
    ensures AsWrittenCoercion(solution) == ComplexToReal(solution)
  {
    var cs := solution.complexSolutions;
    var b := AfterFirst(cs);
    assert b == [cs[1], cs[2], cs[2]];
    assert LaterReads(cs) == [cs[2]];
    PartitionOfThree(cs);
    assert AsWrittenComplex(cs) == [cs[1], cs[2]];
  }

  /**
   * Three roots that are all real: the as-written loop reports the first
   * and the third, then the third again, and loses the second.
   */
  lemma AsWrittenThreeReals(solution: EquationSolution)
    requires |solution.complexSolutions| == 3
    requires forall k :: 0 <= k < 3 ==> solution.complexSolutions[k].im == 0.0
    ensures InBounds(solution.complexSolutions)
    ensures var cs := solution.complexSolutions;
      AsWrittenCoercion(solution) == EquationSolution(
        solution.realSolutions + [cs[0].re, cs[2].re, cs[2].re], [], solution.errorDescription)
  {
    var cs := solution.complexSolutions;
    var b := AfterFirst(cs);
    assert b == [cs[1], cs[2], cs[2]];
    assert AfterSecond(cs) == [cs[1], cs[2], cs[2]];
    assert LaterReads(cs) == [cs[2]];
    assert ZeroImagParts(LaterReads(cs)) == [cs[2].re];
  }

  /**
   * The intended partition of the same three real roots keeps all three, so
   * the two differ whenever the second and third real parts differ.
   */
  lemma AsWrittenLosesARoot(solution: EquationSolution)
    requires |solution.complexSolutions| == 3
    requires forall k :: 0 <= k < 3 ==> solution.complexSolutions[k].im == 0.0
    requires solution.complexSolutions[1].re != solution.complexSolutions[2].re
    ensures InBounds(solution.complexSolutions)
    ensures ComplexToReal(solution).realSolutions
         == solution.realSolutions + [solution.complexSolutions[0].re,
                                      solution.complexSolutions[1].re,
                                      solution.complexSolutions[2].re]
    ensures AsWrittenCoercion(solution) != ComplexToReal(solution)
  {
    var cs := solution.complexSolutions;
    AsWrittenThreeReals(solution);
    PartitionOfThree(cs);
    var n := |solution.realSolutions|;
    assert AsWrittenCoercion(solution).realSolutions[n + 1] == cs[2].re;
    assert ComplexToReal(solution).realSolutions[n + 1] == cs[1].re;
  }
}
