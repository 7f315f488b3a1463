/** The arithmetic of the `Complex` value class.

    Both drafts of the class (languages/jmath/Complex.java and the root
    Complex.java) implement the shared arithmetic with the same formulas, so
    it is defined once here. Negate, Reciprocal and Equals exist only in the
    languages/jmath draft; the root draft has no such methods. Components
    are exact reals standing for the Java doubles; rounding is not modelled.
 */
module ComplexNumbers {
  import opened Wrappers

  /** A complex number re + im·i. */
  datatype Complex = Complex(re: real, im: real)

  /** The constants ZERO, ONE and I of the class. */
  const ZERO := Complex(0.0, 0.0)
  const ONE := Complex(1.0, 0.0)
  const I := Complex(0.0, 1.0)

  /** The squared modulus re² + im²: the denominator of `divide` and the
      square of `abs`. */
  function NormSq(a: Complex): real
  {
    a.re * a.re + a.im * a.im
  }

  /** add(Complex): (a + bi) + (c + di) = (a+c) + (b+d)i. */
  function Add(a: Complex, b: Complex): Complex
  {
    Complex(a.re + b.re, a.im + b.im)
  }

  /** add(double): the scalar is added to the real part only, which is the
      same as adding the complex number (s, 0). */
  function AddReal(a: Complex, s: real): (r: Complex)
    ensures r == Add(a, Complex(s, 0.0))
  {
    Complex(a.re + s, a.im)
  }

  /** subtract(Complex): componentwise difference, undone by `Add`. */
  function Subtract(a: Complex, b: Complex): (r: Complex)
    ensures Add(r, b) == a
  {
    Complex(a.re - b.re, a.im - b.im)
  }

  /** subtract(double): the same as subtracting (s, 0). */
  function SubtractReal(a: Complex, s: real): (r: Complex)
    ensures r == Subtract(a, Complex(s, 0.0))
  {
    Complex(a.re - s, a.im)
  }

  /** conjugate(): the imaginary part multiplied by -1; a number plus its
      conjugate is the real number 2·re, and a number times its conjugate is
      the real number re² + im². */
  function Conjugate(a: Complex): (r: Complex)
    ensures r.re == a.re
    ensures Add(a, r) == Complex(2.0 * a.re, 0.0)
    ensures Multiply(a, r) == Complex(NormSq(a), 0.0)
  {
    Complex(a.re, a.im * -1.0)
  }

  /** negate(): both parts multiplied by -1; the additive inverse. */
  function Negate(a: Complex): (r: Complex)
    ensures Add(a, r) == ZERO
  {
    Complex(a.re * -1.0, a.im * -1.0)
  }

  /** multiply(Complex): (a + bi)(c + di) = (ac - bd) + (ad + bc)i. */
  function Multiply(a: Complex, b: Complex): Complex
  {
    Complex(a.re * b.re - a.im * b.im, a.re * b.im + a.im * b.re)
  }

  /** multiply(double): both parts scaled, which is multiplication by (s, 0). */
  function MultiplyReal(a: Complex, s: real): (r: Complex)
    ensures r == Multiply(a, Complex(s, 0.0))
  {
    Complex(a.re * s, a.im * s)
  }

  /** divide(Complex). When the denominator c² + d² is zero Java yields NaN
      components, which have no counterpart among the reals, so a nonzero
      denominator is required.
      The quotient times the divisor gives back the dividend. */
  function Divide(a: Complex, b: Complex): (r: Complex)
    requires NormSq(b) != 0.0
    ensures Multiply(r, b) == a
  {
    var d := NormSq(b);
    var r := Complex((a.re * b.re + a.im * b.im) / d, (a.im * b.re - a.re * b.im) / d);
    DivideTimesDivisor(a.re, a.im, b.re, b.im, d);
    r
  }

  /** reciprocal(): ONE divided by the number; its product with the number
      is ONE. */
  function Reciprocal(a: Complex): (r: Complex)
    requires NormSq(a) != 0.0
    ensures Multiply(a, r) == ONE
  {
    MultiplyCommutes(a, Divide(ONE, a));
    Divide(ONE, a)
  }

  /** equals(Complex): both parts compare equal. On exact reals that is
      equality of the values. */
  function Equals(a: Complex, b: Complex): (r: bool)
    ensures r <==> a == b
  {
    a.re == b.re && a.im == b.im
  }

  /** The reference meaning of `pow`: a multiplied by itself, n factors,
      accumulated on the left as the Java loop does. */
  function Power(a: Complex, n: nat): Complex
    requires n >= 1
  {
    if n == 1 then a else Multiply(Power(a, n - 1), a)
  }

  /** The least integer not below x. */
  function Ceiling(x: real): (r: int)
    ensures x <= r as real < x + 1.0
  {
    -((-x).Floor)
  }

  /** pow(double x). The loop `for (int i = 1; i < x; i++)` multiplies
      ⌈x⌉ - 1 times, so the result is a to the power ⌈x⌉. An exponent below
      1 is refused. The loop counter is a Java int: for x above
      Integer.MAX_VALUE it wraps around and the loop never ends, which is
      why such x are excluded. */
  method Pow(a: Complex, x: real) returns (r: Result<Complex>)
    requires x <= 2147483647.0
    ensures x < 1.0 ==> r == Err(IllegalArgument)
    ensures x >= 1.0 ==> r == Ok(Power(a, Ceiling(x)))
  {
    if x < 1.0 {
      return Err(IllegalArgument);
    }
    var acc := Complex(a.re, a.im);
    var i := 1;
    while (i as real) < x
      invariant 1 <= i <= Ceiling(x)
      invariant acc == Power(a, i)
      decreases Ceiling(x) - i
    {
      acc := Multiply(acc, a);
      i := i + 1;
    }
    r := Ok(acc);
  }

  // ---- algebra of the operations ----

  /** The squared modulus of a product is the product of the squared moduli. */
  lemma MultiplyNormSq(a: Complex, b: Complex)
    ensures NormSq(Multiply(a, b)) == NormSq(a) * NormSq(b)
  {
    NormSqMultiplicative(a.re, a.im, b.re, b.im);
  }

  lemma NormSqMultiplicative(a: real, b: real, c: real, d: real)
    ensures (a * c - b * d) * (a * c - b * d) + (a * d + b * c) * (a * d + b * c)
         == (a * a + b * b) * (c * c + d * d)
  {
    calc {
      (a * c - b * d) * (a * c - b * d) + (a * d + b * c) * (a * d + b * c);
      (a * c) * (a * c) - 2.0 * (a * c) * (b * d) + (b * d) * (b * d)
        + (a * d) * (a * d) + 2.0 * (a * d) * (b * c) + (b * c) * (b * c);
      (a * a) * (c * c) + (b * b) * (d * d) + (a * a) * (d * d) + (b * b) * (c * c);
      (a * a + b * b) * (c * c + d * d);
    }
  }

  lemma DivideTimesDivisor(a: real, b: real, c: real, d: real, n: real)
    requires n == c * c + d * d && n != 0.0
    ensures ((a * c + b * d) / n) * c - ((b * c - a * d) / n) * d == a
    ensures ((a * c + b * d) / n) * d + ((b * c - a * d) / n) * c == b
  {
    var x := (a * c + b * d) / n;
    var y := (b * c - a * d) / n;
    assert x * n == a * c + b * d;
    assert y * n == b * c - a * d;
    assert (x * c - y * d) * n == (x * n) * c - (y * n) * d;
    assert (x * c - y * d) * n == a * n;
    assert (x * d + y * c) * n == (x * n) * d + (y * n) * c;
    assert (x * d + y * c) * n == b * n;
  }

  /** add is commutative and has ZERO as identity. */
  lemma AddCommutes(a: Complex, b: Complex)
    ensures Add(a, b) == Add(b, a)
    ensures Add(a, ZERO) == a
  {
  }

  /** a - a is ZERO, and adding it back leaves a. */
  lemma SubtractSelf(a: Complex)
    ensures Subtract(a, a) == ZERO
    ensures Add(a, Subtract(a, a)) == a
  {
  }

  /** conjugate and negate are involutions. */
  lemma Involutions(a: Complex)
    ensures Conjugate(Conjugate(a)) == a
    ensures Negate(Negate(a)) == a
  {
  }

  /** ONE is the multiplicative identity and ZERO absorbs. */
  lemma MultiplyIdentity(a: Complex)
    ensures Multiply(a, ONE) == a
    ensures Multiply(ONE, a) == a
    ensures Multiply(a, ZERO) == ZERO
    ensures Multiply(ZERO, a) == ZERO
  {
  }

  /** add is associative and undone by subtract. */
  lemma AddLaws(a: Complex, b: Complex, c: Complex)
    ensures Add(Add(a, b), c) == Add(a, Add(b, c))
    ensures Subtract(Add(a, b), b) == a
  {
  }

  lemma MultiplyCommutes(a: Complex, b: Complex)
    ensures Multiply(a, b) == Multiply(b, a)
  {
  }

  lemma MultiplyAssociates(a: Complex, b: Complex, c: Complex)
    ensures Multiply(Multiply(a, b), c) == Multiply(a, Multiply(b, c))
  {
    AssociatesRe(a.re, a.im, b.re, b.im, c.re, c.im);
    AssociatesIm(a.re, a.im, b.re, b.im, c.re, c.im);
  }

  lemma AssociatesRe(p: real, q: real, r: real, s: real, t: real, u: real)
    ensures (p * r - q * s) * t - (p * s + q * r) * u
         == p * (r * t - s * u) - q * (r * u + s * t)
  {
    calc {
      (p * r - q * s) * t - (p * s + q * r) * u;
      (p * r) * t - (q * s) * t - (p * s) * u - (q * r) * u;
      p * (r * t) - q * (s * t) - p * (s * u) - q * (r * u);
      p * (r * t) - p * (s * u) - (q * (r * u) + q * (s * t));
      p * (r * t - s * u) - q * (r * u + s * t);
    }
  }

  lemma AssociatesIm(p: real, q: real, r: real, s: real, t: real, u: real)
    ensures (p * r - q * s) * u + (p * s + q * r) * t
         == p * (r * u + s * t) + q * (r * t - s * u)
  {
    calc {
      (p * r - q * s) * u + (p * s + q * r) * t;
      (p * r) * u - (q * s) * u + (p * s) * t + (q * r) * t;
      p * (r * u) - q * (s * u) + p * (s * t) + q * (r * t);
      p * (r * u) + p * (s * t) + (q * (r * t) - q * (s * u));
      p * (r * u + s * t) + q * (r * t - s * u);
    }
  }

  /** multiply distributes over add. */
  lemma MultiplyDistributes(a: Complex, b: Complex, c: Complex)
    ensures Multiply(a, Add(b, c)) == Add(Multiply(a, b), Multiply(a, c))
  {
  }

  /** Four factors may be regrouped pairwise in any order. */
  lemma {:induction false} Interchange(p: Complex, q: Complex, a: Complex, b: Complex)
    ensures Multiply(Multiply(p, q), Multiply(a, b)) == Multiply(Multiply(p, a), Multiply(q, b))
  {
    calc {
      Multiply(Multiply(p, q), Multiply(a, b));
      { MultiplyAssociates(p, q, Multiply(a, b)); }
      Multiply(p, Multiply(q, Multiply(a, b)));
      { MultiplyAssociates(q, a, b); }
      Multiply(p, Multiply(Multiply(q, a), b));
      { MultiplyCommutes(q, a); }
      Multiply(p, Multiply(Multiply(a, q), b));
      { MultiplyAssociates(a, q, b); }
      Multiply(p, Multiply(a, Multiply(q, b)));
      { MultiplyAssociates(p, a, Multiply(q, b)); }
      Multiply(Multiply(p, a), Multiply(q, b));
    }
  }

  /** i·i = -1. */
  lemma ISquared()
    ensures Multiply(I, I) == Negate(ONE)
  {
  }

  /** Exponents add: a^(m+n) = a^m · a^n. */
  lemma {:induction false} PowerAdd(a: Complex, m: nat, n: nat)
    requires m >= 1 && n >= 1
    ensures Power(a, m + n) == Multiply(Power(a, m), Power(a, n))
  {
    if n == 1 {
    } else {
      calc {
        Power(a, m + n);
        Multiply(Power(a, m + n - 1), a);
        { PowerAdd(a, m, n - 1); }
        Multiply(Multiply(Power(a, m), Power(a, n - 1)), a);
        { MultiplyAssociates(Power(a, m), Power(a, n - 1), a); }
        Multiply(Power(a, m), Multiply(Power(a, n - 1), a));
        Multiply(Power(a, m), Power(a, n));
      }
    }
  }

  /** The power of a product is the product of the powers. */
  lemma {:induction false} PowerOfProduct(a: Complex, b: Complex, n: nat)
    requires n >= 1
    ensures Power(Multiply(a, b), n) == Multiply(Power(a, n), Power(b, n))
  {
    if n > 1 {
      PowerOfProduct(a, b, n - 1);
      Interchange(Power(a, n - 1), Power(b, n - 1), a, b);
    }
  }

  /** The squared modulus of a^n is the n-th power of the squared modulus. */
  lemma {:induction false} PowerNormSq(a: Complex, n: nat)
    requires n >= 1
    ensures NormSq(Power(a, n)) == RealPower(NormSq(a), n)
  {
    if n > 1 {
      PowerNormSq(a, n - 1);
      MultiplyNormSq(Power(a, n - 1), a);
    }
  }

  function RealPower(x: real, n: nat): real
  {
    if n == 0 then 1.0 else RealPower(x, n - 1) * x
  }

  /** pow(1) is the number itself and pow(2) its square; exponents 0 and -1
      are refused. */
  method PowExamples(a: Complex) returns (one: Result<Complex>, two: Result<Complex>, zero: Result<Complex>)
    ensures one == Ok(a)
    ensures two == Ok(Multiply(a, a))
    ensures zero == Err(IllegalArgument)
  {
    one := Pow(a, 1.0);
    two := Pow(a, 2.0);
    zero := Pow(a, 0.0);
  }
}
