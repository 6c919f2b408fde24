/** The algebraic part of src/gmath/complex.rs, with exact `real` components in place of
    the floating-point type parameter. */
module ComplexNumbers {

  /** `Complex { real, imag }`: a copyable value. */
  datatype Complex = Complex(re: real, im: real)

  // ---------------------------------------------------------------------------
  // Construction and access

  function New(re: real, im: real): (z: Complex)
    ensures Real(z) == re && Imag(z) == im
  {
    Complex(re, im)
  }

  function Real(z: Complex): real {
    z.re
  }

  function Imag(z: Complex): real {
    z.im
  }

  /** A value is rebuilt exactly from its two parts. */
  lemma NewFromParts(z: Complex)
    ensures New(Real(z), Imag(z)) == z
  {
  }

  /** The complex conjugate: same real part, opposite imaginary part. */
  function Conjugate(z: Complex): (c: Complex)
    ensures Real(c) == Real(z) && Imag(c) == -Imag(z)
  {
    New(z.re, -z.im)
  }

  /** The imaginary unit. */
  function I(): Complex {
    New(0.0, 1.0)
  }

  function Zero(): Complex {
    New(0.0, 0.0)
  }

  function One(): Complex {
    New(1.0, 0.0)
  }

  /** `From<T>`: a real number as a complex number. */
  function FromReal(x: real): (z: Complex)
    ensures Imag(z) == 0.0 && Real(z) == x
  {
    New(x, 0.0)
  }

  predicate IsZero(z: Complex)
    ensures IsZero(z) <==> z == Zero()
  {
    z.re == 0.0 && z.im == 0.0
  }

  predicate IsOne(z: Complex)
    ensures IsOne(z) <==> z == One()
  {
    z.re == 1.0 && z.im == 0.0
  }

  // ---------------------------------------------------------------------------
  // Arithmetic

  function Add(a: Complex, b: Complex): Complex {
    New(a.re + b.re, a.im + b.im)
  }

  function Sub(a: Complex, b: Complex): Complex {
    New(a.re - b.re, a.im - b.im)
  }

  function Neg(a: Complex): Complex {
    New(-a.re, -a.im)
  }

  /** (ac − bd) + (ad + bc)i. */
  function Mul(a: Complex, b: Complex): Complex {
    New(a.re * b.re - a.im * b.im, a.re * b.im + a.im * b.re)
  }

  /** re² + im², the denominator of `div`. */
  function NormSquared(z: Complex): real {
    z.re * z.re + z.im * z.im
  }

  /** `div` multiplies by the conjugate and divides both parts by re² + im². The source
      performs no zero check (a zero divisor yields NaN components); here re² + im²
      of the divisor must be nonzero. */
  function Div(a: Complex, b: Complex): Complex
    requires NormSquared(b) != 0.0
  {
    var d := NormSquared(b);
    New((a.re * b.re + a.im * b.im) / d, (a.im * b.re - a.re * b.im) / d)
  }

  // ---------------------------------------------------------------------------
  // Algebraic laws

  lemma ConjugateInvolution(z: Complex)
    ensures Conjugate(Conjugate(z)) == z
  {
  }

  lemma AddComponentwise(a: Complex, b: Complex)
    ensures Real(Add(a, b)) == Real(a) + Real(b) && Imag(Add(a, b)) == Imag(a) + Imag(b)
    ensures Real(Sub(a, b)) == Real(a) - Real(b) && Imag(Sub(a, b)) == Imag(a) - Imag(b)
  {
  }

  lemma AddCommutative(a: Complex, b: Complex)
    ensures Add(a, b) == Add(b, a)
  {
  }

  lemma AddAssociative(a: Complex, b: Complex, c: Complex)
    ensures Add(Add(a, b), c) == Add(a, Add(b, c))
  {
  }

  lemma SubIsAddNeg(a: Complex, b: Complex)
    ensures Sub(a, b) == Add(a, Neg(b))
    ensures Add(Sub(a, b), b) == a
  {
  }

  lemma ZeroIdentity(a: Complex)
    ensures Add(a, Zero()) == a && Add(Zero(), a) == a
    ensures Add(a, Neg(a)) == Zero()
  {
  }

  lemma OneIdentity(a: Complex)
    ensures Mul(a, One()) == a && Mul(One(), a) == a
  {
  }

  lemma ISquared()
    ensures Mul(I(), I()) == Neg(One())
  {
  }

  lemma MulCommutative(a: Complex, b: Complex)
    ensures Mul(a, b) == Mul(b, a)
  {
  }

  lemma MulAssociative(a: Complex, b: Complex, c: Complex)
    ensures Mul(Mul(a, b), c) == Mul(a, Mul(b, c))
  {
    var ab := Mul(a, b);
    var bc := Mul(b, c);
    assert ab.re * c.re - ab.im * c.im == a.re * bc.re - a.im * bc.im;
    assert ab.re * c.im + ab.im * c.re == a.re * bc.im + a.im * bc.re;
  }

  lemma MulDistributesOverAdd(a: Complex, b: Complex, c: Complex)
    ensures Mul(a, Add(b, c)) == Add(Mul(a, b), Mul(a, c))
  {
  }

  /** z · z̄ is the real number re² + im². */
  lemma MulConjugate(z: Complex)
    ensures Mul(z, Conjugate(z)) == FromReal(NormSquared(z))
  {
  }

  /** Division undoes multiplication: (a / b) · b == a whenever b ≠ 0. */
  lemma DivMulCancel(a: Complex, b: Complex)
    requires NormSquared(b) != 0.0
    ensures Mul(Div(a, b), b) == a
  {
    var d := NormSquared(b);
    var x := (a.re * b.re + a.im * b.im) / d;
    var y := (a.im * b.re - a.re * b.im) / d;
    assert x * d == a.re * b.re + a.im * b.im;
    assert y * d == a.im * b.re - a.re * b.im;
    assert (x * b.re - y * b.im) * d == a.re * d;
    assert (x * b.im + y * b.re) * d == a.im * d;
  }

  /** Multiplying by b and then dividing by b gives back a. */
  lemma MulDivCancel(a: Complex, b: Complex)
    requires NormSquared(b) != 0.0
    ensures Div(Mul(a, b), b) == a
  {
    var d := NormSquared(b);
    var m := Mul(a, b);
    assert m.re * b.re + m.im * b.im == a.re * d;
    assert m.im * b.re - m.re * b.im == a.im * d;
  }

  // ---------------------------------------------------------------------------
  // The compound assignment operators, which overwrite a variable in place

  /** A mutable `Complex` place, the `self` of `+=`, `-=`, `*=` and `/=`. */
  class ComplexVar {
    var re: real
    var im: real

    constructor (z: Complex)
      ensures Value() == z
    {
      re := z.re;
      im := z.im;
    }

    function Value(): Complex
      reads this
    {
      Complex(re, im)
    }

    /** `+=`: both parts updated from the old parts. */
    method AddAssign(other: Complex)
      modifies this
      ensures Value() == Add(old(Value()), other)
    {
      re := re + other.re;
      im := im + other.im;
    }

    method SubAssign(other: Complex)
      modifies this
      ensures Value() == Sub(old(Value()), other)
    {
      re := re - other.re;
      im := im - other.im;
    }

    /** `*=`: the new real part is computed into a temporary first, so the imaginary part
        still reads the old real part. */
    method MulAssign(other: Complex)
      modifies this
      ensures Value() == Mul(old(Value()), other)
    {
      var r := re * other.re - im * other.im;
      var i := re * other.im + im * other.re;
      re := r;
      im := i;
    }

    method DivAssign(other: Complex)
      requires NormSquared(other) != 0.0
      modifies this
      ensures Value() == Div(old(Value()), other)
    {
      var d := NormSquared(other);
      var r := (re * other.re + im * other.im) / d;
      var i := (im * other.re - re * other.im) / d;
      re := r;
      im := i;
    }
  }
}
