/** Plain decimal text for the components of a complex number.

    The Java code converts a double to text with `Double.toString` (through
    string concatenation) and back with `Double.parseDouble`. Both are library
    calls; this module gives them an exact, restricted meaning on reals:
    `Render` writes an optional '-', the integer digits, a '.', and the fewest
    fraction digits (at least one) that represent the value; `Parse` accepts
    what `Double.parseDouble` accepts once exponents, hexadecimal, the
    NaN/Infinity words and the d/f suffixes are set aside.
 */
module Decimal {
  import opened Wrappers

  /** The largest number of fraction digits `Render` writes. */
  const MaxScale: nat := 20

  predicate IsDigit(c: char) {
    '0' <= c <= '9'
  }

  predicate AllDigits(s: string) {
    forall i :: 0 <= i < |s| ==> IsDigit(s[i])
  }

  function DigitValue(c: char): nat
    requires IsDigit(c)
  {
    c as int - '0' as int
  }

  function DigitChar(d: nat): (c: char)
    requires d < 10
    ensures IsDigit(c) && DigitValue(c) == d
  {
    ('0' as int + d) as char
  }

  /** a · 10^k, as k multiplications by ten. */
  function Shift(a: real, k: nat): (r: real)
    ensures a >= 0.0 ==> r >= 0.0
  {
    if k == 0 then a else Shift(a, k - 1) * 10.0
  }

  /** a / 10^k, as k divisions by ten. */
  function Unshift(a: real, k: nat): real
    decreases k
  {
    if k == 0 then a else Unshift(a / 10.0, k - 1)
  }

  /** Dividing by 10^k undoes multiplying by 10^k. */
  lemma {:induction false} UnshiftShift(a: real, k: nat)
    ensures Unshift(Shift(a, k), k) == a
  {
    if k > 0 {
      calc {
        Unshift(Shift(a, k), k);
        Unshift(Shift(a, k - 1) * 10.0 / 10.0, k - 1);
        { assert Shift(a, k - 1) * 10.0 / 10.0 == Shift(a, k - 1); }
        Unshift(Shift(a, k - 1), k - 1);
        { UnshiftShift(a, k - 1); }
        a;
      }
    }
  }

  /** The number a string of decimal digits denotes (leading zeros allowed). */
  function NatValue(s: string): nat
    requires AllDigits(s)
  {
    if |s| == 0 then 0 else NatValue(s[..|s| - 1]) * 10 + DigitValue(s[|s| - 1])
  }

  /** The decimal digits of n, most significant first, without leading zeros. */
  function NatDigits(n: nat): (s: string)
    ensures 1 <= |s| && AllDigits(s)
    ensures NatValue(s) == n
    ensures |s| > 1 ==> s[0] != '0'
  {
    if n < 10 then [DigitChar(n)]
    else
      var s := NatDigits(n / 10) + [DigitChar(n % 10)];
      assert s[..|s| - 1] == NatDigits(n / 10);
      s
  }

  /** Prefixes zeros until the string is at least `width` long; the number it
      denotes does not change. */
  function PadLeft(s: string, width: nat): (r: string)
    requires AllDigits(s)
    ensures AllDigits(r) && |r| >= width && |r| >= |s|
    ensures NatValue(r) == NatValue(s)
    decreases width - |s|
  {
    if |s| >= width then s
    else
      LeadingZero(s);
      PadLeft(['0'] + s, width)
  }

  lemma {:induction false} LeadingZero(s: string)
    requires AllDigits(s)
    ensures AllDigits(['0'] + s)
    ensures NatValue(['0'] + s) == NatValue(s)
  {
    var z := ['0'] + s;
    if |s| > 0 {
      assert z[..|z| - 1] == ['0'] + s[..|s| - 1];
      LeadingZero(s[..|s| - 1]);
    }
  }

  // ---- Double.parseDouble ----

  /** String.trim(): drops leading and trailing characters up to U+0020. */
  function Trim(s: string): (r: string)
    ensures |r| == 0 || (r[0] > ' ' && r[|r| - 1] > ' ')
    ensures |s| > 0 && s[0] > ' ' && s[|s| - 1] > ' ' ==> r == s
  {
    TrimEnd(TrimStart(s))
  }

  function TrimStart(s: string): (r: string)
    ensures |r| == 0 || r[0] > ' '
    ensures |s| > 0 && s[0] > ' ' ==> r == s
  {
    if |s| > 0 && s[0] <= ' ' then TrimStart(s[1..]) else s
  }

  function TrimEnd(s: string): (r: string)
    ensures |r| == 0 || r[|r| - 1] > ' '
    ensures |s| > 0 && s[|s| - 1] > ' ' ==> r == s
    ensures |r| <= |s| && (|r| > 0 ==> r[0] == s[0])
  {
    if |s| > 0 && s[|s| - 1] <= ' ' then
      var r := TrimEnd(s[..|s| - 1]);
      assert |r| > 0 ==> r[0] == s[..|s| - 1][0];
      r
    else s
  }

  /** The index of the first '.', or |s| when there is none. */
  function FirstDot(s: string): (j: nat)
    ensures j <= |s|
    ensures forall i :: 0 <= i < j ==> s[i] != '.'
    ensures j < |s| ==> s[j] == '.'
  {
    if |s| == 0 || s[0] == '.' then 0 else 1 + FirstDot(s[1..])
  }

  predicate IsSign(c: char) {
    c == '+' || c == '-'
  }

  /** A character of an unsigned numeral. */
  predicate IsNumberChar(c: char) {
    IsDigit(c) || c == '.'
  }

  /** The grammar of an unsigned numeral: digits and at most one '.', with at
      least one digit. */
  predicate IsUnsignedNumeral(u: string) {
    && (forall i :: 0 <= i < |u| ==> IsNumberChar(u[i]))
    && (forall i, j :: 0 <= i < j < |u| ==> !(u[i] == '.' && u[j] == '.'))
    && (exists i :: 0 <= i < |u| && IsDigit(u[i]))
  }

  /** The grammar of a numeral: an optional sign, then an unsigned numeral. */
  predicate IsNumeral(t: string) {
    if |t| > 0 && IsSign(t[0]) then IsUnsignedNumeral(t[1..]) else IsUnsignedNumeral(t)
  }

  /** The value of `D+`, `D+.D*` or `.D+`: all its digits read as one integer,
      divided by ten to the number of fraction digits. */
  function ParseUnsigned(u: string): Option<real>
  {
    var j := FirstDot(u);
    var whole := u[..j];
    var frac := if j < |u| then u[j + 1..] else "";
    if AllDigits(whole) && AllDigits(frac) && |whole| + |frac| >= 1 then
      assert AllDigits(whole + frac);
      Some(Unshift(NatValue(whole + frac) as real, |frac|))
    else
      None
  }

  lemma {:induction false} UnsignedNumeralSplit(u: string, j: nat, whole: string, frac: string)
    requires j == FirstDot(u) && whole == u[..j]
    requires frac == if j < |u| then u[j + 1..] else ""
    ensures IsUnsignedNumeral(u) <==> AllDigits(whole) && AllDigits(frac) && |whole| + |frac| >= 1
  {
    if AllDigits(whole) && AllDigits(frac) && |whole| + |frac| >= 1 {
      forall i | 0 <= i < |u|
        ensures IsNumberChar(u[i])
      {
        if i < j {
          assert u[i] == whole[i];
        } else if i > j {
          assert u[i] == frac[i - j - 1];
        }
      }
      forall i, k | 0 <= i < k < |u|
        ensures !(u[i] == '.' && u[k] == '.')
      {
        if k > j {
          assert u[k] == frac[k - j - 1];
        } else {
          assert u[i] == whole[i];
        }
      }
      if |whole| >= 1 {
        assert IsDigit(u[0]) by { assert u[0] == whole[0]; }
      } else {
        assert IsDigit(u[j + 1]) by { assert u[j + 1] == frac[0]; }
      }
    }
    if IsUnsignedNumeral(u) {
      var w :| 0 <= w < |u| && IsDigit(u[w]);
      assert forall i :: 0 <= i < |whole| ==> whole[i] == u[i];
      if j < |u| {
        assert forall i :: j < i < |u| ==> u[i] == frac[i - j - 1];
        assert w != j;
      }
    }
  }

  /** Double.parseDouble on the supported grammar: the text is trimmed, an
      optional sign is read, and the rest must be an unsigned numeral. */
  function Parse(s: string): Option<real>
  {
    var t := Trim(s);
    if |t| > 0 && t[0] == '-' then Negated(ParseUnsigned(t[1..]))
    else if |t| > 0 && t[0] == '+' then ParseUnsigned(t[1..])
    else ParseUnsigned(t)
  }

  /** The value negated; no value stays no value. */
  function Negated(r: Option<real>): Option<real> {
    if r.Some? then Some(-r.value) else None
  }

  /** The parser accepts exactly the unsigned numerals. */
  lemma {:induction false} ParseUnsignedAccepts(u: string)
    ensures ParseUnsigned(u).Some? <==> IsUnsignedNumeral(u)
  {
    var j := FirstDot(u);
    UnsignedNumeralSplit(u, j, u[..j], if j < |u| then u[j + 1..] else "");
  }

  lemma {:induction false} ParseAccepts(s: string)
    ensures Parse(s).Some? <==> IsNumeral(Trim(s))
  {
    var t := Trim(s);
    if |t| > 0 && IsSign(t[0]) {
      ParseUnsignedAccepts(t[1..]);
    } else {
      ParseUnsignedAccepts(t);
    }
  }

  /** A leading '-' negates the value of the text after it and a leading
      '+' keeps it; a sign in front of a text that is not a number leaves
      it not a number. */
  lemma {:induction false} ParseSigned(u: string)
    requires |u| > 0 && u[0] > ' ' && u[|u| - 1] > ' ' && !IsSign(u[0])
    ensures Parse("-" + u) == Negated(Parse(u))
    ensures Parse("+" + u) == Parse(u)
  {
    var v := ParseUnsigned(u);
    UnsignedText(u);
    if v.Some? {
      ParsePlus(u, v.value);
      ParseMinus(u, v.value);
    } else {
      SignedNone(u, "+");
      SignedNone(u, "-");
    }
  }

  /** A sign in front of a text that is not an unsigned numeral does not
      make it a number. */
  lemma {:induction false} SignedNone(u: string, sign: string)
    requires |u| > 0 && u[|u| - 1] > ' ' && ParseUnsigned(u).None?
    requires sign == "+" || sign == "-"
    ensures Parse(sign + u).None?
  {
    var t := sign + u;
    TrimNoop(t);
    assert IsSign(t[0]) && t[1..] == u;
  }

  /** A trimmed text without a sign is read unsigned. */
  lemma {:induction false} UnsignedText(u: string)
    requires |u| > 0 && u[0] > ' ' && u[|u| - 1] > ' ' && !IsSign(u[0])
    ensures Parse(u) == ParseUnsigned(u)
  {
    TrimNoop(u);
  }

  // ---- Double.toString ----

  function Abs(x: real): (r: real)
    ensures r >= 0.0 && (r == x || r == -x)
  {
    if x < 0.0 then -x else x
  }

  /** a scaled by 10^k and rounded down. */
  function Scaled(a: real, k: nat): int
  {
    Shift(a, k).Floor
  }

  /** a has an exact decimal form with k fraction digits. */
  predicate ExactAt(a: real, k: nat) {
    Scaled(a, k) as real == Shift(a, k)
  }

  /** The fewest fraction digits, from k up to MaxScale, that write a exactly;
      MaxScale when none does. */
  function ScaleFrom(a: real, k: nat): (r: nat)
    requires 1 <= k <= MaxScale
    ensures k <= r <= MaxScale
    ensures forall i :: k <= i < r ==> !ExactAt(a, i)
    ensures r < MaxScale ==> ExactAt(a, r)
    decreases MaxScale - k
  {
    if ExactAt(a, k) || k == MaxScale then k else ScaleFrom(a, k + 1)
  }

  /** The number of fraction digits Render writes for a. */
  function Scale(a: real): (r: nat)
    ensures 1 <= r <= MaxScale
    ensures forall i :: 1 <= i < r ==> !ExactAt(a, i)
    ensures r < MaxScale ==> ExactAt(a, r)
  {
    ScaleFrom(a, 1)
  }

  /** x has a plain decimal form with at most MaxScale fraction digits; these
      are the values Render writes without loss. */
  predicate Representable(x: real) {
    ExactAt(Abs(x), Scale(Abs(x)))
  }

  /** x is zero or has a magnitude in [10^-3, 10^7): the values
      Double.toString writes without an exponent. */
  predicate PlainForm(x: real) {
    x == 0.0 || 0.001 <= Abs(x) < 10000000.0
  }

  /** The digits of a scaled by 10^k, truncated. */
  function ScaledDigits(a: real, k: nat): (m: nat)
    requires a >= 0.0
    ensures m == Scaled(a, k)
  {
    Scaled(a, k)
  }

  /** The numeral for m / 10^k: the digits of m, padded with zeros to at
      least k + 1 digits, with a '.' before the last k of them. */
  function Place(m: nat, k: nat): (r: string)
    requires k >= 1
    ensures var p := FirstDot(r);
      && 1 <= p < |r| - 1
      && AllDigits(r[..p]) && AllDigits(r[p + 1..])
      && |r| - 1 - p == k
  {
    var d := PadLeft(NatDigits(m), k + 1);
    var q := |d| - k;
    var r := d[..q] + "." + d[q..];
    assert r[..q] == d[..q];
    assert r[q + 1..] == d[q..];
    assert forall i :: 0 <= i < q ==> r[i] != '.' by {
      assert forall i :: 0 <= i < q ==> r[i] == d[i];
    }
    assert r[q] == '.';
    assert FirstDot(r) == q;
    r
  }

  /** The numeral Place writes denotes m / 10^k. */
  lemma {:induction false} PlaceValue(m: nat, k: nat)
    requires k >= 1
    ensures ParseUnsigned(Place(m, k)) == Some(Unshift(m as real, k))
  {
    var d := PadLeft(NatDigits(m), k + 1);
    var q := |d| - k;
    var r := Place(m, k);
    assert r == d[..q] + "." + d[q..];
    assert FirstDot(r) == q;
    var whole, frac := r[..q], r[q + 1..];
    assert whole == d[..q];
    assert frac == d[q..];
    assert whole + frac == d;
    assert NatValue(d) == m;
    assert |frac| == k;
  }

  /** The text of a nonnegative value: at least one integer digit, a '.',
      and Scale(a) fraction digits. */
  function RenderUnsigned(a: real): (r: string)
    requires a >= 0.0
    ensures var p := FirstDot(r);
      && 1 <= p < |r| - 1
      && AllDigits(r[..p]) && AllDigits(r[p + 1..])
      && |r| - 1 - p == Scale(a)
  {
    Place(ScaledDigits(a, Scale(a)), Scale(a))
  }

  /** Double.toString on a finite value, in plain (not scientific) notation. */
  function Render(x: real): (r: string)
    ensures x < 0.0 ==> r == "-" + RenderUnsigned(-x)
    ensures x >= 0.0 ==> r == RenderUnsigned(x)
  {
    (if x < 0.0 then "-" else "") + RenderUnsigned(Abs(x))
  }

  // ---- the two directions agree ----

  /** Parsing the rendering of a representable nonnegative value gives the
      value back. */
  lemma {:induction false} UnsignedRoundTrip(a: real)
    requires a >= 0.0 && ExactAt(a, Scale(a))
    ensures ParseUnsigned(RenderUnsigned(a)) == Some(a)
  {
    var k := Scale(a);
    var m := ScaledDigits(a, k);
    assert RenderUnsigned(a) == Place(m, k);
    PlaceValue(m, k);
    assert m as real == Shift(a, k);
    UnshiftShift(a, k);
  }

  /** The rendering of a nonnegative value starts and ends with a digit. */
  lemma {:induction false} RenderedEnds(a: real)
    requires a >= 0.0
    ensures var u := RenderUnsigned(a); IsDigit(u[0]) && IsDigit(u[|u| - 1])
  {
    var u := RenderUnsigned(a);
    var p := FirstDot(u);
    assert u[0] == u[..p][0];
    assert u[|u| - 1] == u[p + 1..][|u| - 2 - p];
  }

  /** The rendering of a nonnegative value is an unsigned numeral with a
      '.' that starts and ends with a digit. */
  lemma {:induction false} RenderedNumeral(a: real)
    requires a >= 0.0
    ensures var u := RenderUnsigned(a);
      && IsUnsignedNumeral(u) && IsDigit(u[0]) && IsDigit(u[|u| - 1])
      && FirstDot(u) < |u| - 1 && u[FirstDot(u)] == '.'
  {
    var u := RenderUnsigned(a);
    var p := FirstDot(u);
    RenderedEnds(a);
    UnsignedNumeralSplit(u, p, u[..p], u[p + 1..]);
  }

  /** Double.parseDouble(Double.toString(x)) == x for representable x. */
  lemma {:induction false} RoundTrip(x: real)
    requires Representable(x)
    ensures Parse(Render(x)) == Some(x)
  {
    var a := Abs(x);
    if x < 0.0 {
      SignedRoundTrip(a);
      assert Render(x) == "-" + RenderUnsigned(a);
    } else {
      var u := RenderUnsigned(a);
      UnsignedRoundTrip(a);
      RenderedEnds(a);
      ParseBare(u, a);
    }
  }

  /** A sign written in front of the rendering of a nonnegative
      representable value is read back: "+" keeps it, "-" negates it. */
  lemma {:induction false} SignedRoundTrip(a: real)
    requires a >= 0.0 && ExactAt(a, Scale(a))
    ensures Parse("+" + RenderUnsigned(a)) == Some(a)
    ensures Parse("-" + RenderUnsigned(a)) == Some(-a)
  {
    var u := RenderUnsigned(a);
    UnsignedRoundTrip(a);
    RenderedEnds(a);
    SignedParse(u, a);
  }

  /** A sign in front of a numeral that starts and ends with a digit. */
  lemma {:induction false} SignedParse(u: string, v: real)
    requires |u| > 0 && IsDigit(u[0]) && IsDigit(u[|u| - 1])
    requires ParseUnsigned(u) == Some(v)
    ensures Parse("+" + u) == Some(v)
    ensures Parse("-" + u) == Some(-v)
  {
    ParsePlus(u, v);
    ParseMinus(u, v);
  }

  lemma {:induction false} ParsePlus(u: string, v: real)
    requires |u| > 0 && u[|u| - 1] > ' ' && ParseUnsigned(u) == Some(v)
    ensures Parse("+" + u) == Some(v)
  {
    var t := "+" + u;
    TrimNoop(t);
    assert t[0] == '+' && t[1..] == u;
    assert Parse(t) == Some(v);
  }

  lemma {:induction false} ParseMinus(u: string, v: real)
    requires |u| > 0 && u[|u| - 1] > ' ' && ParseUnsigned(u) == Some(v)
    ensures Parse("-" + u) == Some(-v)
  {
    var t := "-" + u;
    TrimNoop(t);
    assert t[0] == '-' && t[1..] == u;
    assert Trim(t) == t && IsSign(t[0]);
    assert Parse(t) == Negated(ParseUnsigned(u));
  }

  lemma {:induction false} ParseBare(u: string, v: real)
    requires |u| > 0 && IsDigit(u[0]) && IsDigit(u[|u| - 1]) && ParseUnsigned(u) == Some(v)
    ensures Parse(u) == Some(v)
  {
    TrimNoop(u);
  }

  lemma {:induction false} TrimNoop(t: string)
    requires |t| > 0 && t[0] > ' ' && t[|t| - 1] > ' '
    ensures Trim(t) == t
  {
  }
}
