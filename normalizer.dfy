/**
 * The normaliser (`isSign`, `replaceEquation`): marks every term boundary of
 * the raw equation with ';' so that the splitter can cut it into signed terms.
 */
module Normalizer {
  import opened Text

  /** `isSign`: the one-character strings "+", "-" and "=" are signs, nothing else is. */
  function IsSign(c: string): (b: bool)
    ensures b <==> |c| == 1 && (c[0] == '+' || c[0] == '-' || c[0] == '=')
  {
    c == "+" || c == "-" || c == "="
  }

  /** The test's cases: three signs, and "/" is not one. */
  lemma IsSignCases()
    ensures IsSign("+") && IsSign("-") && IsSign("=") && !IsSign("/")
  {
  }

  /**
   * What `replaceEquation` appends for the character at index `i`: a sign
   * after index 0 gets a ';' before it, and an '=' one after it as well.
   */
  function Piece(e: string, i: nat): string
    requires i < |e|
  {
    var c := e[i];
    if i != 0 && (c == '+' || c == '-' || c == '=') then [';', c] + (if c == '=' then [';'] else [])
    else [c]
  }

  /** The output after the first `n` characters have been scanned. */
  function ReplacedPrefix(e: string, n: nat): string
    requires n <= |e|
  {
    if n == 0 then "" else ReplacedPrefix(e, n - 1) + Piece(e, n - 1)
  }

  /** The whole output of `replaceEquation`. */
  function Replaced(e: string): string
  {
    ReplacedPrefix(e, |e|)
  }

  /** `replaceEquation`: the string-accumulator loop over the bytes of the equation. */
  method ReplaceEquation(equation: string) returns (newEquation: string)
    ensures newEquation == Replaced(equation)
  {
    newEquation := "";
    var i := 0;
    while i < |equation|
      invariant 0 <= i <= |equation|
      invariant newEquation == ReplacedPrefix(equation, i)
    {
      ghost var before := newEquation;
      var expr := [equation[i]];
      if IsSign(expr) && i != 0 {
        newEquation := newEquation + ";" + expr;
        if expr == "=" {
          newEquation := newEquation + ";";
          assert newEquation == before + ([';', equation[i]] + [';']);
        } else {
          assert expr != "=" && equation[i] != '=';
          assert newEquation == before + ([';', equation[i]] + []);
        }
      } else {
        newEquation := newEquation + expr;
      }
      assert newEquation == before + Piece(equation, i);
      i := i + 1;
    }
  }

  /** The output after `m` characters is a prefix of the output after `n >= m`. */
  lemma {:induction false} ReplacedPrefixGrows(e: string, m: nat, n: nat)
    requires m <= n <= |e|
    ensures |ReplacedPrefix(e, m)| <= |ReplacedPrefix(e, n)|
    ensures ReplacedPrefix(e, n)[..|ReplacedPrefix(e, m)|] == ReplacedPrefix(e, m)
    decreases n - m
  {
    if m < n {
      ReplacedPrefixGrows(e, m, n - 1);
      PrefixExtends(ReplacedPrefix(e, n), ReplacedPrefix(e, n - 1), Piece(e, n - 1), ReplacedPrefix(e, m));
    }
  }

  /** A prefix of `p` is a prefix of `p + q`. */
  lemma PrefixExtends(upTo: string, p: string, q: string, r: string)
    requires upTo == p + q && |r| <= |p| && p[..|r|] == r
    ensures |r| <= |upTo| && upTo[..|r|] == r
  {
    assert upTo[..|p|] == p;
  }

  /**
   * Layout of the output: the piece for character `i` starts at the length
   * of the output for the characters before it. A sign after index 0 is
   * preceded by ';', an '=' after index 0 is also followed by ';', and every
   * other character is copied as it is.
   */
  lemma ReplacedLayout(e: string, i: nat)
    requires i < |e|
    ensures var off, out := |ReplacedPrefix(e, i)|, Replaced(e);
      if i > 0 && (e[i] == '+' || e[i] == '-' || e[i] == '=') then
        off + 2 <= |out| && out[off] == ';' && out[off + 1] == e[i]
        && (e[i] == '=' ==> off + 3 <= |out| && out[off + 2] == ';')
      else
        off < |out| && out[off] == e[i]
  {
    PieceSlice(e, i);
    Lands(Replaced(e), |ReplacedPrefix(e, i)|, Piece(e, i), e[i],
          i > 0 && (e[i] == '+' || e[i] == '-' || e[i] == '='), e[i] == '=');
  }

  /**
   * A piece found at offset `off` of the output: a marked sign is ';' then
   * the sign, then ';' if it closes a side; anything else is the character.
   */
  lemma Lands(out: string, off: nat, piece: string, c: char, marked: bool, closes: bool)
    requires off + |piece| <= |out| && out[off..off + |piece|] == piece
    requires piece == if marked then [';', c] + (if closes then [';'] else []) else [c]
    ensures if marked then
        off + 2 <= |out| && out[off] == ';' && out[off + 1] == c
        && (closes ==> off + 3 <= |out| && out[off + 2] == ';')
      else
        off < |out| && out[off] == c
  {
    SliceChars(out, off, piece);
  }

  /** The characters of a slice are those of the whole at the same offsets. */
  lemma SliceChars(out: string, off: nat, piece: string)
    requires off + |piece| <= |out| && out[off..off + |piece|] == piece
    ensures forall k :: 0 <= k < |piece| ==> out[off + k] == piece[k]
  {
  }

  /** The piece for index `i` sits in the output right after the output for the characters before it. */
  lemma PieceSlice(e: string, i: nat)
    requires i < |e|
    ensures |ReplacedPrefix(e, i)| + |Piece(e, i)| <= |Replaced(e)|
    ensures Replaced(e)[|ReplacedPrefix(e, i)|..|ReplacedPrefix(e, i)| + |Piece(e, i)|] == Piece(e, i)
  {
    ReplacedPrefixGrows(e, i + 1, |e|);
    SliceOfPrefix(Replaced(e), ReplacedPrefix(e, i + 1), ReplacedPrefix(e, i), Piece(e, i));
  }

  /** `q` sits at offset `|p|` of any string that starts with `p + q`. */
  lemma SliceOfPrefix(whole: string, upTo: string, p: string, q: string)
    requires upTo == p + q && |upTo| <= |whole| && whole[..|upTo|] == upTo
    ensures whole[|p|..|upTo|] == q
  {
    assert whole[|p|..|upTo|] == upTo[|p|..];
  }

  /** Deleting the ';' marks from the prefix output gives the scanned prefix back. */
  lemma {:induction false} DeletePrefixRestores(e: string, n: nat)
    requires n <= |e| && ';' !in e
    ensures Delete(ReplacedPrefix(e, n), ';') == e[..n]
  {
    if n > 0 {
      var p, q := ReplacedPrefix(e, n - 1), Piece(e, n - 1);
      assert Delete(p, ';') == e[..n - 1] by {
        DeletePrefixRestores(e, n - 1);
      }
      assert Delete(q, ';') == [e[n - 1]] by {
        assert e[n - 1] in e;
        DeletePiece(e, n - 1);
      }
      RestoreStep(e[..n - 1], e[n - 1], p, q);
      TakeOneMore(e, n);
    }
  }

  /** If deleting ';' from `p` gives `restored` and from `q` the character `c`, deleting it from `p + q` gives `restored + [c]`. */
  lemma RestoreStep(restored: string, c: char, p: string, q: string)
    requires Delete(p, ';') == restored && Delete(q, ';') == [c]
    ensures Delete(p + q, ';') == restored + [c]
  {
    DeleteAppend(p, q, ';');
  }

  /** The first `n` characters are the first `n - 1` and then one more. */
  lemma TakeOneMore(e: string, n: nat)
    requires 0 < n <= |e|
    ensures e[..n] == e[..n - 1] + [e[n - 1]]
  {
  }

  /** Deleting the ';' marks from one piece leaves the scanned character. */
  lemma DeletePiece(e: string, i: nat)
    requires i < |e| && e[i] != ';'
    ensures Delete(Piece(e, i), ';') == [e[i]]
  {
    var c := e[i];
    if i != 0 && (c == '+' || c == '-' || c == '=') {
      var tail := if c == '=' then ";" else "";
      assert Piece(e, i) == ";" + ([c] + tail);
      DeleteAppend(";", [c] + tail, ';');
      DeleteAppend([c], tail, ';');
    }
  }

  /** Round trip: for a ';'-free equation, deleting every ';' from the output restores the input. */
  lemma DeleteRestores(e: string)
    requires ';' !in e
    ensures Delete(Replaced(e), ';') == e
  {
    DeletePrefixRestores(e, |e|);
    assert e[..|e|] == e;
  }

  /** The output never starts with ';' unless the input itself does. */
  lemma NeverStartsWithMark(e: string)
    requires e == [] || e[0] != ';'
    ensures Replaced(e) == [] || Replaced(e)[0] != ';'
  {
    if e != [] {
      ReplacedPrefixGrows(e, 1, |e|);
      assert ReplacedPrefix(e, 1) == [e[0]];
    }
  }

  /** Steps 1 to 5 of the example below. */
  lemma ReplacedExamplePart1(e: string)
    requires e == "x^3+2x^2+x+1=0"
    ensures ReplacedPrefix(e, 5) == "x^3;+2"
  {
    assert ReplacedPrefix(e, 1) == "x" by {
      assert Piece(e, 0) == "x";
    }
    assert ReplacedPrefix(e, 2) == "x^" by {
      assert Piece(e, 1) == "^";
    }
    assert ReplacedPrefix(e, 3) == "x^3" by {
      assert Piece(e, 2) == "3";
    }
    assert ReplacedPrefix(e, 4) == "x^3;+" by {
      assert Piece(e, 3) == ";+";
    }
    assert ReplacedPrefix(e, 5) == "x^3;+2" by {
      assert Piece(e, 4) == "2";
    }
  }

  /** Steps 6 to 10 of the example below. */
  lemma ReplacedExamplePart2(e: string)
    requires e == "x^3+2x^2+x+1=0"
    requires ReplacedPrefix(e, 5) == "x^3;+2"
    ensures ReplacedPrefix(e, 10) == "x^3;+2x^2;+x"
  {
    assert ReplacedPrefix(e, 6) == "x^3;+2x" by {
      assert Piece(e, 5) == "x";
    }
    assert ReplacedPrefix(e, 7) == "x^3;+2x^" by {
      assert Piece(e, 6) == "^";
    }
    assert ReplacedPrefix(e, 8) == "x^3;+2x^2" by {
      assert Piece(e, 7) == "2";
    }
    assert ReplacedPrefix(e, 9) == "x^3;+2x^2;+" by {
      assert Piece(e, 8) == ";+";
    }
    assert ReplacedPrefix(e, 10) == "x^3;+2x^2;+x" by {
      assert Piece(e, 9) == "x";
    }
  }

  /** Steps 11 to 14 of the example below. */
  lemma ReplacedExamplePart3(e: string)
    requires e == "x^3+2x^2+x+1=0"
    requires ReplacedPrefix(e, 10) == "x^3;+2x^2;+x"
    ensures ReplacedPrefix(e, 14) == "x^3;+2x^2;+x;+1;=;0"
  {
    assert ReplacedPrefix(e, 11) == "x^3;+2x^2;+x;+" by {
      assert Piece(e, 10) == ";+";
    }
    assert ReplacedPrefix(e, 12) == "x^3;+2x^2;+x;+1" by {
      assert Piece(e, 11) == "1";
    }
    assert ReplacedPrefix(e, 13) == "x^3;+2x^2;+x;+1;=;" by {
      assert Piece(e, 12) == ";=;";
    }
    assert ReplacedPrefix(e, 14) == "x^3;+2x^2;+x;+1;=;0" by {
      assert Piece(e, 13) == "0";
    }
  }

  /** The example of the test suite. */
  lemma ReplacedExample(e: string)
    requires e == "x^3+2x^2+x+1=0"
    ensures Replaced(e) == "x^3;+2x^2;+x;+1;=;0"
  {
    ReplacedExamplePart1(e);
    ReplacedExamplePart2(e);
    ReplacedExamplePart3(e);
  }
}
