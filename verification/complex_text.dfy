/** `toString` and `parseComplex` of the Complex class.

    Both drafts print the same text: the real part, then, when the imaginary
    part is nonzero, its sign, its magnitude (left out when it is 1) and an
    'i'. They read text back by cutting out the imaginary term with a regular
    expression (see ImagPattern) and handing the real and the imaginary text
    to Double.parseDouble (see Decimal). They differ in the pattern only.
 */
module ComplexText {
  import opened Wrappers
  import opened Decimal
  import opened ImagPattern
  import opened ComplexNumbers

  /** The pattern of each draft. */
  const JMathPattern := DecimalCoefficient   // languages/jmath/Complex.java
  const RootPattern := IntegerCoefficient    // Complex.java

  /** The sign written between the parts: none for a zero imaginary part. */
  function SignText(im: real): (r: string)
    ensures im == 0.0 <==> r == ""
    ensures im > 0.0 <==> r == "+"
    ensures im < 0.0 <==> r == "-"
  {
    if im > 0.0 then "+" else if im < 0.0 then "-" else ""
  }

  /** The magnitude and the 'i': nothing for a zero imaginary part, a bare
      'i' for magnitude 1. */
  function ImagTerm(im: real): string {
    if im == 0.0 then ""
    else if Abs(im) == 1.0 then "i"
    else Render(Abs(im)) + "i"
  }

  /** The shape of Double.toString's text for a finite value: an optional
      '-', then digits and dots, ending with a digit. */
  predicate IsRendered(t: string) {
    && |t| >= 2
    && (t[0] == '-' || IsDigit(t[0]))
    && (forall k :: 1 <= k < |t| ==> IsNumberChar(t[k]))
    && IsDigit(t[|t| - 1])
  }

  lemma {:induction false} RenderShape(x: real)
    ensures IsRendered(Render(x))
  {
    var u := RenderUnsigned(Abs(x));
    UnsignedShape(Abs(x));
    if x < 0.0 {
      NegativeShape(u);
    }
  }

  lemma {:induction false} UnsignedShape(a: real)
    requires a >= 0.0
    ensures IsRendered(RenderUnsigned(a)) && IsDigit(RenderUnsigned(a)[0])
  {
    var u := RenderUnsigned(a);
    RenderedNumeral(a);
    assert forall k :: 0 <= k < |u| ==> IsNumberChar(u[k]);
  }

  /** A '-' in front of a rendering that starts with a digit. */
  lemma {:induction false} NegativeShape(u: string)
    requires IsRendered(u) && IsDigit(u[0])
    ensures IsRendered("-" + u)
  {
    var t := "-" + u;
    assert forall k :: 1 <= k < |t| ==> t[k] == u[k - 1];
  }

  /** A rendered number holds neither an 'i' nor a space. */
  lemma {:induction false} RenderedPlain(t: string)
    requires IsRendered(t)
    ensures NoI(t) && ' ' !in t
  {
    assert forall k :: 0 <= k < |t| ==> t[k] == '-' || IsNumberChar(t[k]);
  }

  /** What toString writes after the real part. */
  function Tail(im: real): (r: string)
    ensures im == 0.0 <==> r == ""
    ensures im != 0.0 ==> |r| >= 2 && IsSign(r[0]) && r[|r| - 1] == 'i'
  {
    var r := SignText(im) + ImagTerm(im);
    assert im != 0.0 ==> r[0] == SignText(im)[0] && r[|r| - 1] == 'i';
    r
  }

  /** toString writes no space after the real part. */
  lemma {:induction false} TailPlain(im: real)
    ensures ' ' !in Tail(im)
  {
    if im != 0.0 && Abs(im) != 1.0 {
      var v := Render(Abs(im));
      RenderShape(Abs(im));
      RenderedPlain(v);
      NoSpaceJoined(v, "i");
      NoSpaceJoined(SignText(im), v + "i");
    }
  }

  lemma {:induction false} NoSpaceJoined(a: string, b: string)
    requires ' ' !in a && ' ' !in b
    ensures ' ' !in a + b
  {
    assert forall k :: 0 <= k < |a + b| ==> (a + b)[k] in a || (a + b)[k] in b;
  }

  /** toString(): the real part, then the tail. The text starts with the
      rendering of the real part and mentions an 'i' exactly when the
      imaginary part is nonzero. */
  function ToString(c: Complex): (r: string)
    ensures |Render(c.re)| <= |r| && r[..|Render(c.re)|] == Render(c.re)
    ensures c.im == 0.0 <==> NoI(r)
  {
    RenderShape(c.re);
    Joined(Render(c.re), Tail(c.im));
    Render(c.re) + Tail(c.im)
  }

  /** The three forms of toString's text: the real part alone, the real
      part and a signed bare 'i', or the real part, the sign, the magnitude
      and an 'i'. */
  lemma {:induction false} ToStringCases(c: Complex)
    ensures c.im == 0.0 ==> ToString(c) == Render(c.re)
    ensures c.im == 1.0 ==> ToString(c) == Render(c.re) + "+i"
    ensures c.im == -1.0 ==> ToString(c) == Render(c.re) + "-i"
    ensures c.im > 0.0 && c.im != 1.0 ==> ToString(c) == Render(c.re) + ("+" + (Render(c.im) + "i"))
    ensures c.im < 0.0 && c.im != -1.0 ==> ToString(c) == Render(c.re) + ("-" + (Render(-c.im) + "i"))
  {
    TextCases(Render(c.re), c.im, ToString(c));
  }

  lemma {:induction false} TextCases(re: string, im: real, t: string)
    requires t == re + Tail(im)
    ensures im == 0.0 ==> t == re
    ensures im == 1.0 ==> t == re + "+i"
    ensures im == -1.0 ==> t == re + "-i"
    ensures im > 0.0 && im != 1.0 ==> t == re + ("+" + (Render(im) + "i"))
    ensures im < 0.0 && im != -1.0 ==> t == re + ("-" + (Render(-im) + "i"))
  {
    if im == 0.0 || Abs(im) == 1.0 {
      UnitTail(im);
      assert re + "" == re;
    } else {
      ScaledTail(im);
    }
  }

  lemma {:induction false} UnitTail(im: real)
    requires im == 0.0 || Abs(im) == 1.0
    ensures Tail(im) == if im == 0.0 then "" else if im > 0.0 then "+i" else "-i"
  {
  }

  lemma {:induction false} ScaledTail(im: real)
    requires im != 0.0 && Abs(im) != 1.0
    ensures im > 0.0 ==> Tail(im) == "+" + (Render(im) + "i")
    ensures im < 0.0 ==> Tail(im) == "-" + (Render(-im) + "i")
  {
    assert ImagTerm(im) == Render(Abs(im)) + "i";
  }

  /** The real part's rendering followed by a tail that is empty or ends in
      'i'. */
  lemma {:induction false} Joined(re: string, tail: string)
    requires IsRendered(re) && (tail == "" || tail[|tail| - 1] == 'i')
    ensures (re + tail)[..|re|] == re
    ensures NoI(re + tail) <==> tail == ""
  {
    RenderedPlain(re);
    var t := re + tail;
    if tail == "" {
      assert t == re;
    } else {
      assert t[|t| - 1] == 'i';
    }
  }

  // ---- parseComplex ----

  /** The real text: the input with every imaginary term removed, "0" when
      nothing is left. */
  function RealText(pat: Pattern, s: string): (r: string)
    ensures |r| > 0 && NoI(r)
  {
    var t := ReplaceAll(pat, s, 0);
    if t == "" then "0" else t
  }

  /** The imaginary text: the first imaginary term without its 'i', a
      missing coefficient read as 1; "0" when there is no term. */
  function ImagText(pat: Pattern, s: string): string {
    match Find(pat, s, 0)
    case None => "0"
    case Some((b, e)) =>
      UnitCoefficient(Without(s[b..e], 'i'))
  }

  /** A sign alone, or nothing, stands for the coefficient 1. */
  function UnitCoefficient(g: string): string {
    if g == "+" || g == "-" || g == "" then g + "1" else g
  }

  /** parseComplex(String). A null or a text with a space is refused; so is
      a text whose real text Double.parseDouble rejects. The imaginary text
      is always a numeral, so nothing else can fail. Every failure is a
      NumberFormatException. */
  function ParseComplex(pat: Pattern, s: Option<string>): (r: Result<Complex>)
    ensures r.Ok? <==> s.Some? && ' ' !in s.value && Parse(RealText(pat, s.value)).Some?
    ensures r.Err? ==> r.error == NumberFormat
  {
    if s.None? then Err(NumberFormat)
    else if ' ' in s.value then Err(NumberFormat)
    else
      var re := Parse(RealText(pat, s.value));
      var im := Parse(ImagText(pat, s.value));
      ImagTextParses(pat, s.value);
      if re.Some? && im.Some? then Ok(Complex(re.value, im.value)) else Err(NumberFormat)
  }

  /** The value parseComplex returns when it succeeds. */
  lemma {:induction false} ParsedParts(pat: Pattern, t: string, x: real, y: real)
    requires ' ' !in t
    requires Parse(RealText(pat, t)) == Some(x) && Parse(ImagText(pat, t)) == Some(y)
    ensures ParseComplex(pat, Some(t)) == Ok(Complex(x, y))
  {
  }

  /** A one-digit numeral denotes its digit. */
  lemma {:induction false} ParseDigit(c: char)
    requires IsDigit(c)
    ensures ParseUnsigned([c]) == Some(DigitValue(c) as real)
  {
    var u := [c];
    assert FirstDot(u) == 1 by {
      assert FirstDot(u[1..]) == 0;
    }
    assert u[..1] == u;
    assert NatValue(u) == NatValue(u[..0]) * 10 + DigitValue(c);
    assert u + "" == u;
  }

  /** A bare sign or an empty coefficient stands for 1 with that sign;
      any other coefficient is kept as written. */
  lemma {:induction false} UnitCoefficientValue(g: string)
    ensures g == "" || g == "+" ==> Parse(UnitCoefficient(g)) == Some(1.0)
    ensures g == "-" ==> Parse(UnitCoefficient(g)) == Some(-1.0)
    ensures g != "" && g != "+" && g != "-" ==> UnitCoefficient(g) == g
  {
    if g == "" {
      assert UnitCoefficient(g) == "1";
      ParseOne();
    } else if g == "+" {
      assert UnitCoefficient(g) == "+1";
      ParsePlusOne();
    } else if g == "-" {
      assert UnitCoefficient(g) == "-1";
      ParseMinusOne();
    }
  }

  /** "0", the constant real or imaginary text parseComplex falls back on,
      is read as zero. */
  lemma {:induction false} ParseZero()
    ensures Parse("0") == Some(0.0)
  {
    ParseDigit('0');
    ParseBare("0", 0.0);
  }

  lemma {:induction false} ParseOne()
    ensures Parse("1") == Some(1.0)
  {
    ParseDigit('1');
    ParseBare("1", 1.0);
  }

  lemma {:induction false} ParsePlusOne()
    ensures Parse("+1") == Some(1.0)
  {
    TrimNoop("+1");
    assert "+1"[1..] == "1";
    ParseDigit('1');
  }

  lemma {:induction false} ParseMinusOne()
    ensures Parse("-1") == Some(-1.0)
  {
    TrimNoop("-1");
    assert "-1"[1..] == "1";
    ParseDigit('1');
  }

  /** A nonempty coefficient is an unsigned numeral that starts with a
      digit and ends with a digit or '.'. */
  lemma {:induction false} CoefficientNumeral(pat: Pattern, t: string)
    requires IsCoefficient(pat, t) && |t| > 0
    ensures IsUnsignedNumeral(t) && IsDigit(t[0]) && IsNumberChar(t[|t| - 1])
  {
    if pat == IntegerCoefficient {
      assert IsDigit(t[0]);
      assert forall i :: 0 <= i < |t| ==> t[i] != '.';
    }
  }

  /** Double.parseDouble never rejects the imaginary text. */
  lemma {:induction false} ImagTextParses(pat: Pattern, s: string)
    ensures Parse(ImagText(pat, s)).Some?
  {
    match Find(pat, s, 0)
    case None =>
      ParseZero();
    case Some((b, e)) =>
      var w := s[b..e];
      MatchAtIsTerm(pat, s, b, e);
      WithoutFinalI(pat, w);
      TermBodyParses(pat, w);
  }

  /** The sign and coefficient of a term, with a missing coefficient read as
      1, is a numeral. */
  lemma {:induction false} TermBodyParses(pat: Pattern, w: string)
    requires IsTerm(pat, w)
    ensures Parse(UnitCoefficient(w[..|w| - 1])).Some?
  {
    var g := w[..|w| - 1];
    if g == "" {
      ParseOne();
      assert g + "1" == "1";
    } else if g == "+" {
      ParsePlusOne();
      assert g + "1" == "+1";
    } else if g == "-" {
      ParseMinusOne();
      assert g + "1" == "-1";
    } else {
      assert UnitCoefficient(g) == g;
      if IsSign(g[0]) {
        var c := g[1..];
        CoefficientNumeral(pat, c);
        assert g[|g| - 1] == c[|c| - 1];
      } else {
        CoefficientNumeral(pat, g);
      }
      TrimNoop(g);
      ParseAccepts(g);
    }
  }

  // ---- reading back what toString writes ----

  /** No term starts inside a rendered real part when what follows it is a
      sign or nothing. */
  lemma {:induction false} NoMatchInPrefix(pat: Pattern, re: string, w: string, p: nat)
    requires IsRendered(re) && (w == "" || IsSign(w[0])) && p < |re|
    ensures MatchAt(pat, re + w, p) == None
  {
    var t := re + w;
    assert forall k :: 0 <= k < |re| ==> t[k] == re[k];
    var q := AfterSign(t, p);
    assert q >= 1 || IsDigit(re[0]);
    assert |re| == |t| || t[|re|] == w[0];
    RunEndIs(t, q, |re|);
  }

  /** No term starts at the end of a text. */
  lemma {:induction false} NoMatchAtEnd(pat: Pattern, t: string)
    ensures MatchAt(pat, t, |t|) == None
    ensures Find(pat, t, |t|) == None
  {
    RunEndIs(t, |t|, |t|);
    FindNone(pat, t, |t|);
  }

  /** A rendered real part alone: it is the real text, and the imaginary
      text is "0". */
  lemma {:induction false} RealOnlyText(pat: Pattern, re: string)
    requires IsRendered(re)
    ensures RealText(pat, re) == re && ImagText(pat, re) == "0"
  {
    RenderedPlain(re);
    FindNone(pat, re, 0);
    assert re[0..] == re;
  }

  /** A rendered real part followed by a sign, a coefficient and an 'i':
      the term is cut out whole, leaving the real part as the real text. */
  lemma {:induction false} TermAfterReal(pat: Pattern, re: string, sign: string, v: string)
    requires IsRendered(re) && (sign == "+" || sign == "-") && IsCoefficient(pat, v)
    ensures var t := re + (sign + (v + "i"));
      && RealText(pat, t) == re
      && ImagText(pat, t) == UnitCoefficient(sign + v)
  {
    var w := sign + (v + "i");
    var t := re + w;
    assert t[|re|..|t|] == w;
    assert w[..|w| - 1] == sign + v;
    assert (sign + v)[1..] == v;
    assert IsTerm(pat, w);
    TermIsMatch(pat, t, |re|, |t|);
    forall p | 0 <= p < |re|
      ensures MatchAt(pat, t, p) == None
    {
      NoMatchInPrefix(pat, re, w, p);
    }
    FindIs(pat, t, 0, |re|, |t|);
    NoMatchAtEnd(pat, t);
    ReplaceOnce(pat, t, |re|, |t|);
    assert t[..|re|] + t[|t|..] == re;
    WithoutFinalI(pat, w);
  }

  /** The same text under the integer pattern when the coefficient has a
      '.': the term found is the fraction digits and the 'i', and the real
      text keeps the sign, the integer digits and the '.'. Double.parseDouble
      rejects it, since a sign follows the first character. */
  lemma {:induction false} DecimalAfterRealUnderInteger(re: string, sign: string, u: string)
    requires IsRendered(re) && (sign == "+" || sign == "-")
    requires IsUnsignedNumeral(u) && FirstDot(u) < |u| - 1
    ensures Parse(RealText(IntegerCoefficient, re + (sign + (u + "i")))).None?
  {
    IntegerRealText(re, sign, u);
    IntegerRealTextRejected(re, sign, u);
  }

  /** Double.parseDouble rejects that prefix. */
  lemma {:induction false} IntegerRealTextRejected(re: string, sign: string, u: string)
    requires IsRendered(re) && (sign == "+" || sign == "-")
    requires IsUnsignedNumeral(u) && FirstDot(u) < |u| - 1
    ensures Parse((re + (sign + (u + "i")))[..|re| + 1 + FirstDot(u) + 1]).None?
  {
    IntegerRealTextShape(re, sign, u);
    SignInsideRejected((re + (sign + (u + "i")))[..|re| + 1 + FirstDot(u) + 1], |re|);
  }

  /** Under the integer pattern the real text of that text is everything
      before the first fraction digit. */
  lemma {:induction false} IntegerRealText(re: string, sign: string, u: string)
    requires IsRendered(re) && (sign == "+" || sign == "-")
    requires IsUnsignedNumeral(u) && FirstDot(u) < |u| - 1
    ensures RealText(IntegerCoefficient, re + (sign + (u + "i")))
         == (re + (sign + (u + "i")))[..|re| + 1 + FirstDot(u) + 1]
  {
    var t := re + (sign + (u + "i"));
    var b := |re| + 1 + FirstDot(u) + 1;
    IntegerReplaced(re, sign, u);
    assert t[..b][0] == re[0];
  }

  /** Under the integer pattern the first term of that text starts at the
      first fraction digit and runs to the end, so replaceAll keeps what
      lies before it. */
  lemma {:induction false} IntegerReplaced(re: string, sign: string, u: string)
    requires IsRendered(re) && (sign == "+" || sign == "-")
    requires IsUnsignedNumeral(u) && FirstDot(u) < |u| - 1
    ensures ReplaceAll(IntegerCoefficient, re + (sign + (u + "i")), 0)
         == (re + (sign + (u + "i")))[..|re| + 1 + FirstDot(u) + 1]
  {
    var t := re + (sign + (u + "i"));
    var b := |re| + 1 + FirstDot(u) + 1;
    NoTermBeforeFraction(re, sign, u);
    TermAtFraction(re, sign, u);
    FindIs(IntegerCoefficient, t, 0, b, |t|);
    ReplaceLast(IntegerCoefficient, t, b);
  }

  /** That prefix starts and ends with a printable character and holds the
      sign right after the real part. */
  lemma {:induction false} IntegerRealTextShape(re: string, sign: string, u: string)
    requires IsRendered(re) && (sign == "+" || sign == "-")
    requires IsUnsignedNumeral(u) && FirstDot(u) < |u| - 1
    ensures var x := (re + (sign + (u + "i")))[..|re| + 1 + FirstDot(u) + 1];
      && |re| < |x| && IsSign(x[|re|]) && x[0] > ' ' && x[|x| - 1] > ' '
  {
    var t := re + (sign + (u + "i"));
    var x := t[..|re| + 1 + FirstDot(u) + 1];
    MagnitudeLayout(re, sign, u);
    assert x[0] == re[0];
    assert x[|x| - 1] == u[FirstDot(u)];
  }

  /** Where the magnitude u sits in that text. */
  lemma {:induction false} MagnitudeLayout(re: string, sign: string, u: string)
    requires |sign| == 1
    ensures var t := re + (sign + (u + "i"));
      && |t| == |re| + 1 + |u| + 1 && t[|t| - 1] == 'i' && t[|re|] == sign[0]
      && t[|re| + 1..|t| - 1] == u
  {
  }

  /** Under the integer pattern a term starts at the first fraction digit
      of the magnitude and runs to the end. */
  lemma {:induction false} TermAtFraction(re: string, sign: string, u: string)
    requires |sign| == 1
    requires IsUnsignedNumeral(u) && FirstDot(u) < |u| - 1
    ensures var t := re + (sign + (u + "i"));
      MatchAt(IntegerCoefficient, t, |re| + 1 + FirstDot(u) + 1) == Some(|t|)
  {
    MagnitudeLayout(re, sign, u);
    IntegerMatchAtFraction(re + (sign + (u + "i")), |re| + 1, u);
  }

  /** Under the integer pattern no term starts before the first fraction
      digit of the magnitude. */
  lemma {:induction false} NoTermBeforeFraction(re: string, sign: string, u: string)
    requires IsRendered(re) && (sign == "+" || sign == "-")
    requires IsUnsignedNumeral(u) && FirstDot(u) < |u| - 1
    ensures var t := re + (sign + (u + "i"));
      forall p :: 0 <= p < |re| + 1 + FirstDot(u) + 1 ==> MatchAt(IntegerCoefficient, t, p).None?
  {
    var w := sign + (u + "i");
    var t := re + w;
    MagnitudeLayout(re, sign, u);
    forall p | 0 <= p < |re| + 1 + FirstDot(u) + 1
      ensures MatchAt(IntegerCoefficient, t, p) == None
    {
      if p < |re| {
        NoMatchInPrefix(IntegerCoefficient, re, w, p);
      } else {
        NoIntegerMatchBeforeDot(t, |re| + 1, u, p);
      }
    }
  }

  /** Under the integer pattern a term starts at the first fraction digit of
      a magnitude u followed by the final 'i', and runs to the end. */
  lemma {:induction false} IntegerMatchAtFraction(t: string, start: nat, u: string)
    requires start + |u| + 1 == |t| && t[|t| - 1] == 'i'
    requires t[start..|t| - 1] == u
    requires IsUnsignedNumeral(u) && FirstDot(u) < |u| - 1
    ensures MatchAt(IntegerCoefficient, t, start + FirstDot(u) + 1) == Some(|t|)
  {
    var d := FirstDot(u);
    var b := start + d + 1;
    assert u[d] == '.';
    forall k | b <= k < |t| - 1
      ensures IsDigit(t[k])
    {
      assert t[k] == u[k - start];
      assert IsNumberChar(u[k - start]) && u[k - start] != '.';
    }
    assert AfterSign(t, b) == b;
    RunEndIs(t, b, |t| - 1);
    assert AllDigits(t[b..|t| - 1]);
  }

  /** Under the integer pattern no term starts at the sign or in the
      integer digits of a magnitude u that sits between a sign and the
      final 'i': the coefficient would contain u's '.'. */
  lemma {:induction false} NoIntegerMatchBeforeDot(t: string, start: nat, u: string, p: nat)
    requires 1 <= start && start + |u| + 1 == |t| && t[|t| - 1] == 'i' && IsSign(t[start - 1])
    requires t[start..|t| - 1] == u
    requires IsUnsignedNumeral(u) && FirstDot(u) < |u|
    requires start - 1 <= p <= start + FirstDot(u)
    ensures MatchAt(IntegerCoefficient, t, p) == None
  {
    var d := FirstDot(u);
    forall k | start <= k < |t| - 1
      ensures IsNumberChar(t[k])
    {
      assert t[k] == u[k - start];
    }
    var q := AfterSign(t, p);
    assert start <= q <= start + d;
    RunEndIs(t, q, |t| - 1);
    assert t[start + d] == '.';
    assert t[q..|t| - 1][start + d - q] == '.';
  }

  /** Double.parseDouble rejects a text with a sign after its first
      character. */
  lemma {:induction false} SignInsideRejected(x: string, k: nat)
    requires 0 < k < |x| && IsSign(x[k]) && x[0] > ' ' && x[|x| - 1] > ' '
    ensures Parse(x).None?
  {
    TrimNoop(x);
    ParseAccepts(x);
    if IsSign(x[0]) {
      assert x[1..][k - 1] == x[k];
    }
  }

  /** Where the imaginary part is 0 or ±1, or the pattern admits decimal
      coefficients, parseComplex reads toString's text back. */
  lemma {:induction false} ReadBack(pat: Pattern, c: Complex)
    requires Representable(c.re) && Representable(c.im)
    requires pat == DecimalCoefficient || c.im == 0.0 || Abs(c.im) == 1.0
    ensures ParseComplex(pat, Some(ToString(c))) == Ok(c)
  {
    var t := ToString(c);
    var re := Render(c.re);
    RenderShape(c.re);
    RenderedPlain(re);
    TailPlain(c.im);
    NoSpaceJoined(re, Tail(c.im));
    Decimal.RoundTrip(c.re);
    ReadBackParts(pat, c);
    ParsedParts(pat, t, c.re, c.im);
  }

  /** The real and the imaginary text of toString's output. */
  lemma {:induction false} ReadBackParts(pat: Pattern, c: Complex)
    requires Representable(c.im)
    requires pat == DecimalCoefficient || c.im == 0.0 || Abs(c.im) == 1.0
    ensures RealText(pat, ToString(c)) == Render(c.re)
    ensures Parse(ImagText(pat, ToString(c))) == Some(c.im)
  {
    if c.im == 0.0 {
      RealOnlyParts(pat, c);
      ParseZero();
    } else {
      ImagParts(pat, c);
    }
  }

  lemma {:induction false} ImagParts(pat: Pattern, c: Complex)
    requires Representable(c.im) && c.im != 0.0
    requires pat == DecimalCoefficient || Abs(c.im) == 1.0
    ensures RealText(pat, ToString(c)) == Render(c.re)
    ensures Parse(ImagText(pat, ToString(c))) == Some(c.im)
  {
    if Abs(c.im) == 1.0 {
      UnitParts(pat, c);
    } else {
      ScaledParts(pat, c);
    }
  }

  lemma {:induction false} UnitParts(pat: Pattern, c: Complex)
    requires Abs(c.im) == 1.0
    ensures RealText(pat, ToString(c)) == Render(c.re)
    ensures Parse(ImagText(pat, ToString(c))) == Some(c.im)
  {
    UnitText(c);
    UnitImagValue(c.im);
    UnitTerm(pat, c);
  }

  /** For an imaginary part ±1 toString writes the real part, the sign and
      a bare 'i'. */
  lemma {:induction false} UnitText(c: Complex)
    requires Abs(c.im) == 1.0
    ensures ToString(c) == Render(c.re) + (SignText(c.im) + ("" + "i"))
  {
    TailOf(c.im, "");
  }

  lemma {:induction false} UnitTerm(pat: Pattern, c: Complex)
    requires Abs(c.im) == 1.0
    requires ToString(c) == Render(c.re) + (SignText(c.im) + ("" + "i"))
    requires Parse(UnitCoefficient(SignText(c.im))) == Some(c.im)
    ensures RealText(pat, ToString(c)) == Render(c.re)
    ensures Parse(ImagText(pat, ToString(c))) == Some(c.im)
  {
    RenderShape(c.re);
    assert SignText(c.im) + "" == SignText(c.im);
    TermValue(pat, ToString(c), Render(c.re), SignText(c.im), "", c.im);
  }

  lemma {:induction false} ScaledParts(pat: Pattern, c: Complex)
    requires Representable(c.im) && c.im != 0.0 && Abs(c.im) != 1.0
    requires pat == DecimalCoefficient
    ensures RealText(pat, ToString(c)) == Render(c.re)
    ensures Parse(ImagText(pat, ToString(c))) == Some(c.im)
  {
    var v := Render(Abs(c.im));
    ScaledText(c, v);
    ImagValue(c.im, v);
    ScaledTermParts(pat, c, v);
  }

  /** For any other imaginary part toString writes the real part, the sign,
      the magnitude v and an 'i'. */
  lemma {:induction false} ScaledText(c: Complex, v: string)
    requires c.im != 0.0 && Abs(c.im) != 1.0 && v == Render(Abs(c.im))
    ensures ToString(c) == Render(c.re) + (SignText(c.im) + (v + "i"))
    ensures IsCoefficient(DecimalCoefficient, v)
  {
    TailOf(c.im, v);
  }

  lemma {:induction false} ScaledTermParts(pat: Pattern, c: Complex, v: string)
    requires pat == DecimalCoefficient && c.im != 0.0 && IsCoefficient(DecimalCoefficient, v)
    requires ToString(c) == Render(c.re) + (SignText(c.im) + (v + "i"))
    requires Parse(UnitCoefficient(SignText(c.im) + v)) == Some(c.im)
    ensures RealText(pat, ToString(c)) == Render(c.re)
    ensures Parse(ImagText(pat, ToString(c))) == Some(c.im)
  {
    RenderShape(c.re);
    TermValue(pat, ToString(c), Render(c.re), SignText(c.im), v, c.im);
  }

  /** The real and imaginary text of a rendered real part followed by a
      term whose sign and coefficient denote y. */
  lemma {:induction false} TermValue(pat: Pattern, t: string, re: string, sign: string, v: string, y: real)
    requires IsRendered(re) && (sign == "+" || sign == "-") && IsCoefficient(pat, v)
    requires t == re + (sign + (v + "i"))
    requires Parse(UnitCoefficient(sign + v)) == Some(y)
    ensures RealText(pat, t) == re && Parse(ImagText(pat, t)) == Some(y)
  {
    TermAfterReal(pat, re, sign, v);
  }

  lemma {:induction false} RealOnlyParts(pat: Pattern, c: Complex)
    requires c.im == 0.0
    ensures RealText(pat, ToString(c)) == Render(c.re)
    ensures ImagText(pat, ToString(c)) == "0"
  {
    RenderShape(c.re);
    assert ToString(c) == Render(c.re) + "";
    assert Render(c.re) + "" == Render(c.re);
    RealOnlyText(pat, Render(c.re));
  }

  /** The tail for a nonzero imaginary part: its sign, the magnitude v
      (empty for 1) and the 'i'. */
  lemma {:induction false} TailOf(im: real, v: string)
    requires im != 0.0 && v == if Abs(im) == 1.0 then "" else Render(Abs(im))
    ensures Tail(im) == SignText(im) + (v + "i")
    ensures IsCoefficient(DecimalCoefficient, v)
    ensures Abs(im) == 1.0 ==> IsCoefficient(IntegerCoefficient, v)
  {
    assert ImagTerm(im) == v + "i";
    if v != "" {
      assert v == RenderUnsigned(Abs(im));
      RenderedNumeral(Abs(im));
    }
  }

  /** The imaginary text of toString's output denotes the imaginary part. */
  lemma {:induction false} ImagValue(im: real, v: string)
    requires im != 0.0 && v == if Abs(im) == 1.0 then "" else Render(Abs(im))
    requires Representable(im)
    ensures Parse(UnitCoefficient(SignText(im) + v)) == Some(im)
  {
    if v == "" {
      assert SignText(im) + v == SignText(im);
      UnitImagValue(im);
    } else {
      ScaledImagValue(im);
    }
  }

  lemma {:induction false} UnitImagValue(im: real)
    requires Abs(im) == 1.0
    ensures Parse(UnitCoefficient(SignText(im))) == Some(im)
  {
    if im > 0.0 {
      assert UnitCoefficient("+") == "+1";
      ParsePlusOne();
    } else {
      assert UnitCoefficient("-") == "-1";
      ParseMinusOne();
    }
  }

  lemma {:induction false} ScaledImagValue(im: real)
    requires im != 0.0 && Abs(im) != 1.0 && Representable(im)
    ensures Parse(UnitCoefficient(SignText(im) + Render(Abs(im)))) == Some(im)
  {
    if im > 0.0 {
      PositiveImagValue(im);
    } else {
      NegativeImagValue(im);
    }
  }

  lemma {:induction false} PositiveImagValue(im: real)
    requires im > 0.0 && Abs(im) != 1.0 && Representable(im)
    ensures Parse(UnitCoefficient(SignText(im) + Render(Abs(im)))) == Some(im)
  {
    var v := Render(Abs(im));
    assert v == RenderUnsigned(Abs(im));
    SignedRoundTrip(Abs(im));
  }

  lemma {:induction false} NegativeImagValue(im: real)
    requires im < 0.0 && Abs(im) != 1.0 && Representable(im)
    ensures Parse(UnitCoefficient(SignText(im) + Render(Abs(im)))) == Some(im)
  {
    var v := Render(Abs(im));
    assert v == RenderUnsigned(Abs(im));
    SignedRoundTrip(Abs(im));
  }

  /** parseComplex of languages/jmath/Complex.java reads back every text its
      toString writes for values Render writes exactly, when the imaginary
      part is written without an exponent. */
  lemma {:induction false} RoundTrip(c: Complex)
    requires Representable(c.re) && Representable(c.im) && PlainForm(c.im)
    ensures ParseComplex(JMathPattern, Some(ToString(c))) == Ok(c)
  {
    ReadBack(JMathPattern, c);
  }

  /** parseComplex of Complex.java reads back toString's text when the
      imaginary part is 0 or ±1. */
  lemma {:induction false} LegacyRoundTrip(c: Complex)
    requires Representable(c.re) && Representable(c.im)
    requires c.im == 0.0 || Abs(c.im) == 1.0
    ensures ParseComplex(RootPattern, Some(ToString(c))) == Ok(c)
  {
    ReadBack(RootPattern, c);
  }

  /** ...and fails on every other imaginary part: toString always writes a
      '.' in the magnitude, which the integer pattern does not admit. */
  lemma {:induction false} LegacyCannotReadBack(c: Complex)
    requires c.im != 0.0 && Abs(c.im) != 1.0
    ensures ParseComplex(RootPattern, Some(ToString(c))) == Err(NumberFormat)
  {
    var re := Render(c.re);
    var a := Abs(c.im);
    var u := RenderUnsigned(a);
    assert ImagTerm(c.im) == u + "i";
    assert ToString(c) == re + (SignText(c.im) + (u + "i"));
    RenderShape(c.re);
    RenderedNumeral(a);
    DecimalAfterRealUnderInteger(re, SignText(c.im), u);
  }
}
