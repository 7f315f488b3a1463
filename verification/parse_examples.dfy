/** parseComplex on the texts its documentation and callers use, worked
    through the pattern match, the removal of the term and the two calls of
    Double.parseDouble.
 */
module ParseExamples {
  import opened Wrappers
  import opened Decimal
  import opened ImagPattern
  import opened ComplexNumbers
  import opened ComplexText

  /** A text of a real part made of digits and dots, then one term with a
      sign, or of a term alone. */
  predicate Layout(re: string, sign: string) {
    && (sign == "" || sign == "+" || sign == "-")
    && (forall k :: 0 <= k < |re| ==> IsNumberChar(re[k]))
    && (re == "" || sign != "")
  }

  /** In such a text the term is the first match and runs to the end, so
      the real text is what precedes it ("0" when nothing does) and the
      imaginary text is its sign and coefficient. */
  lemma {:induction false} TermFound(pat: Pattern, re: string, sign: string, v: string)
    requires Layout(re, sign) && IsCoefficient(pat, v)
    ensures var t := re + (sign + (v + "i"));
      && RealText(pat, t) == (if re == "" then "0" else re)
      && ImagText(pat, t) == UnitCoefficient(sign + v)
  {
    var w := sign + (v + "i");
    var t := re + w;
    assert t[..|re|] == re && t[|re|..|t|] == w;
    SignedTerm(pat, sign, v);
    FirstTerm(pat, re, w);
    LastTermTexts(pat, t, |re|, w, sign + v);
  }

  /** When the first match is a term that ends the text, the real text is
      what precedes it and the imaginary text is the term without its 'i'. */
  lemma {:induction false} LastTermTexts(pat: Pattern, t: string, b: nat, w: string, g: string)
    requires b < |t| && Find(pat, t, 0) == Some((b, |t|))
    requires t[b..|t|] == w && IsTerm(pat, w) && w[..|w| - 1] == g
    ensures RealText(pat, t) == (if b == 0 then "0" else t[..b])
    ensures ImagText(pat, t) == UnitCoefficient(g)
  {
    ReplaceLast(pat, t, b);
    WithoutFinalI(pat, w);
  }

  /** A sign or nothing, a coefficient and an 'i' make a term. */
  lemma {:induction false} SignedTerm(pat: Pattern, sign: string, v: string)
    requires (sign == "" || sign == "+" || sign == "-") && IsCoefficient(pat, v)
    ensures var w := sign + (v + "i");
      IsTerm(pat, w) && w[..|w| - 1] == sign + v
  {
    var w := sign + (v + "i");
    assert w[..|w| - 1] == sign + v;
    assert sign != "" ==> (sign + v)[1..] == v;
    if sign == "" && |v| > 0 {
      CoefficientNumeral(pat, v);
    }
  }

  /** A term after a run of number characters, or after nothing, is the
      first match. */
  lemma {:induction false} FirstTerm(pat: Pattern, re: string, w: string)
    requires IsTerm(pat, w) && (re == "" || IsSign(w[0]))
    requires forall k :: 0 <= k < |re| ==> IsNumberChar(re[k])
    ensures Find(pat, re + w, 0) == Some((|re|, |re + w|))
  {
    var t := re + w;
    assert t[|re|..|t|] == w;
    TermIsMatch(pat, t, |re|, |t|);
    forall p | 0 <= p < |re|
      ensures MatchAt(pat, t, p).None?
    {
      assert t[..|re|] == re && t[|re|] == w[0];
      NoMatchInRun(pat, t, re, p);
    }
    FindIs(pat, t, 0, |re|, |t|);
  }

  lemma {:induction false} NoMatchInRun(pat: Pattern, t: string, re: string, p: nat)
    requires p < |re| < |t| && t[..|re|] == re && IsSign(t[|re|])
    requires forall k :: 0 <= k < |re| ==> IsNumberChar(re[k])
    ensures MatchAt(pat, t, p).None?
  {
    assert forall k :: p <= k < |re| ==> t[k] == re[k];
    assert AfterSign(t, p) == p;
    RunEndIs(t, p, |re|);
  }

  /** parseComplex of such a text: the values of the two texts. */
  lemma {:induction false} LayoutParses(pat: Pattern, re: string, sign: string, v: string, x: real, y: real)
    requires Layout(re, sign) && IsCoefficient(pat, v)
    requires Parse(if re == "" then "0" else re) == Some(x)
    requires Parse(UnitCoefficient(sign + v)) == Some(y)
    ensures ParseComplex(pat, Some(re + (sign + (v + "i")))) == Ok(Complex(x, y))
  {
    var t := re + (sign + (v + "i"));
    TermFound(pat, re, sign, v);
    NoSpace(pat, re, sign, v);
    ParsedParts(pat, t, x, y);
  }

  lemma {:induction false} NoSpace(pat: Pattern, re: string, sign: string, v: string)
    requires Layout(re, sign) && IsCoefficient(pat, v)
    ensures ' ' !in re + (sign + (v + "i"))
  {
    CoefficientChars(pat, v);
    var t := re + (sign + (v + "i"));
    forall k | 0 <= k < |t|
      ensures t[k] != ' '
    {
      if k < |re| {
        assert t[k] == re[k];
      } else if k < |re| + |sign| {
        assert t[k] == sign[k - |re|];
      } else if k < |t| - 1 {
        assert t[k] == v[k - |re| - |sign|];
      }
    }
  }

  lemma {:induction false} Digit(c: char)
    requires IsDigit(c)
    ensures Parse([c]) == Some(DigitValue(c) as real)
    ensures Parse("+" + [c]) == Some(DigitValue(c) as real)
    ensures Parse("-" + [c]) == Some(-(DigitValue(c) as real))
    ensures IsCoefficient(DecimalCoefficient, [c]) && IsCoefficient(IntegerCoefficient, [c])
  {
    ParseDigit(c);
    ParseBare([c], DigitValue(c) as real);
    ParsePlus([c], DigitValue(c) as real);
    ParseMinus([c], DigitValue(c) as real);
    assert IsDigit([c][0]);
  }

  /** "3+2i" is (3, 2) under both patterns. */
  lemma {:induction false} ThreePlusTwoI(pat: Pattern)
    ensures ParseComplex(pat, Some("3+2i")) == Ok(Complex(3.0, 2.0))
  {
    assert "3" + ("+" + ("2" + "i")) == "3+2i";
    ThreePlusTwoPieces(pat);
    LayoutParses(pat, "3", "+", "2", 3.0, 2.0);
  }

  lemma {:induction false} ThreePlusTwoPieces(pat: Pattern)
    ensures Layout("3", "+") && IsCoefficient(pat, "2")
    ensures Parse("3") == Some(3.0) && Parse(UnitCoefficient("+" + "2")) == Some(2.0)
  {
    Digit('3');
    Digit('2');
    assert UnitCoefficient("+" + "2") == "+" + ['2'];
  }

  /** "-i" is (0, -1): the real text is empty and read as "0", the
      coefficient is a bare sign and read as "-1". */
  lemma {:induction false} MinusI(pat: Pattern)
    ensures ParseComplex(pat, Some("-i")) == Ok(Complex(0.0, -1.0))
  {
    assert "" + ("-" + ("" + "i")) == "-i";
    ParseZero();
    ParseMinusOne();
    assert UnitCoefficient("-" + "") == "-1";
    LayoutParses(pat, "", "-", "", 0.0, -1.0);
  }

  /** "i" is (0, 1). */
  lemma {:induction false} BareIText(pat: Pattern)
    ensures ParseComplex(pat, Some("i")) == Ok(Complex(0.0, 1.0))
  {
    assert "" + ("" + ("" + "i")) == "i";
    ParseZero();
    ParseOne();
    assert UnitCoefficient("" + "") == "1";
    LayoutParses(pat, "", "", "", 0.0, 1.0);
  }

  /** "-4i" is (0, -4). */
  lemma {:induction false} MinusFourI(pat: Pattern)
    ensures ParseComplex(pat, Some("-4i")) == Ok(Complex(0.0, -4.0))
  {
    assert "" + ("-" + ("4" + "i")) == "-4i";
    ParseZero();
    Digit('4');
    assert UnitCoefficient("-" + "4") == "-" + ['4'];
    LayoutParses(pat, "", "-", "4", 0.0, -4.0);
  }

  /** A text without an 'i' has no term: it is all real part. */
  lemma {:induction false} RealOnly(pat: Pattern, s: string)
    requires NoI(s)
    ensures RealText(pat, s) == (if s == "" then "0" else s) && ImagText(pat, s) == "0"
  {
    forall k | 0 <= k <= |s|
      ensures MatchAt(pat, s, k).None?
    {
      NoMatchWithoutI(pat, s, k);
    }
    FindNone(pat, s, 0);
    assert s[0..] == s;
  }

  lemma {:induction false} NoMatchWithoutI(pat: Pattern, s: string, k: nat)
    requires NoI(s) && k <= |s|
    ensures MatchAt(pat, s, k).None?
  {
  }

  /** "5" is (5, 0). */
  lemma {:induction false} Five(pat: Pattern)
    ensures ParseComplex(pat, Some("5")) == Ok(Complex(5.0, 0.0))
  {
    RealOnly(pat, "5");
    Digit('5');
    ParseZero();
    ParsedParts(pat, "5", 5.0, 0.0);
  }

  /** "" is (0, 0). */
  lemma {:induction false} Empty(pat: Pattern)
    ensures ParseComplex(pat, Some("")) == Ok(ZERO)
  {
    RealOnly(pat, "");
    ParseZero();
    ParsedParts(pat, "", 0.0, 0.0);
  }

  /** "2.5-3.75i" is (2.5, -3.75) under the decimal pattern of
      languages/jmath/Complex.java. */
  lemma {:induction false} DecimalParts()
    ensures ParseComplex(JMathPattern, Some("2.5-3.75i")) == Ok(Complex(2.5, -3.75))
  {
    assert "2.5" + ("-" + ("3.75" + "i")) == "2.5-3.75i";
    DecimalPieces();
    LayoutParses(JMathPattern, "2.5", "-", "3.75", 2.5, -3.75);
  }

  lemma {:induction false} DecimalPieces()
    ensures Layout("2.5", "-") && IsCoefficient(JMathPattern, "3.75")
    ensures Parse("2.5") == Some(2.5) && Parse(UnitCoefficient("-" + "3.75")) == Some(-3.75)
  {
    ParseTwoDigits("2.5", 1, 2.5);
    ParseTwoDigits("3.75", 1, 3.75);
    ParseBare("2.5", 2.5);
    ParseMinus("3.75", 3.75);
    assert UnitCoefficient("-" + "3.75") == "-" + "3.75";
    assert forall k :: 0 <= k < 3 ==> "2.5"[k] == '.' || IsDigit("2.5"[k]);
  }

  /** "1+2.5i" is refused by Complex.java: the integer pattern first
      matches at the "5i" after the '.', and the text left, "1+2.", is not
      a number. */
  lemma {:induction false} FractionRefused()
    ensures ParseComplex(RootPattern, Some("1+2.5i")) == Err(NumberFormat)
  {
    var s := "1+2.5i";
    forall p | 0 <= p < 4
      ensures MatchAt(RootPattern, s, p).None?
    {
      FractionNoMatch(p);
    }
    FractionMatch();
    FindIs(RootPattern, s, 0, 4, 6);
    ReplaceLast(RootPattern, s, 4);
    assert s[..4] == "1+2.";
    NotANumber();
  }

  lemma {:induction false} FractionNoMatch(p: nat)
    requires p < 4
    ensures MatchAt(RootPattern, "1+2.5i", p).None?
  {
    var s := "1+2.5i";
    if p == 0 {
      RunEndIs(s, 0, 1);
    } else if p < 3 {
      RunEndIs(s, 2, 5);
      assert s[2..5] == "2.5";
      assert !AllDigits(s[2..5]) by { assert s[2..5][1] == '.'; }
    } else {
      RunEndIs(s, 3, 5);
      assert s[3..5] == ".5";
      assert !AllDigits(s[3..5]) by { assert s[3..5][0] == '.'; }
    }
  }

  lemma {:induction false} FractionMatch()
    ensures MatchAt(RootPattern, "1+2.5i", 4) == Some(6)
  {
    var s := "1+2.5i";
    RunEndIs(s, 4, 5);
    assert s[4..5] == "5";
    assert AllDigits("5") by { assert IsDigit("5"[0]); }
  }

  lemma {:induction false} NotANumber()
    ensures Parse("1+2.") == None
  {
    var x := "1+2.";
    TrimNoop(x);
    assert FirstDot(x) == 3 by {
      assert x[1..][1..] == x[2..] && x[2..][1..] == x[3..];
      assert FirstDot(x[3..]) == 0;
    }
    assert !AllDigits(x[..3]) by { assert x[..3][1] == '+'; }
  }

  /** The numerals "2.5" and "3.75": digits around one '.'. */
  lemma {:induction false} ParseTwoDigits(u: string, p: nat, x: real)
    requires (u == "2.5" && p == 1 && x == 2.5) || (u == "3.75" && p == 1 && x == 3.75)
    ensures ParseUnsigned(u) == Some(x) && IsUnsignedNumeral(u) && IsDigit(u[0])
  {
    assert FirstDot(u) == 1 by {
      assert u[0] != '.' && u[1..][0] == '.';
    }
    var whole, frac := u[..1], u[2..];
    assert AllDigits(whole) && AllDigits(frac);
    UnsignedNumeralSplit(u, 1, whole, frac);
    if u == "2.5" {
      assert whole + frac == "25";
      assert NatValue("25") == 25 by {
        assert "25"[..1] == "2" && "2"[..0] == "";
      }
      assert Unshift(25.0, 1) == Unshift(2.5, 0);
    } else {
      assert whole + frac == "375";
      assert NatValue("375") == 375 by {
        assert "375"[..2] == "37" && "37"[..1] == "3" && "3"[..0] == "";
      }
      assert Unshift(375.0, 2) == Unshift(37.5, 1) == Unshift(3.75, 0);
    }
  }
}
