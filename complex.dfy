/**
 * The part of `num::Complex<f64>` that the root finder uses, over exact reals:
 * addition, subtraction, multiplication, division and the L1 norm `|re| + |im|`.
 */
module ComplexNum {
  import opened RealOps

  datatype Complex = Complex(re: real, im: real)

  const Zero: Complex := Complex(0.0, 0.0)

  /** A real coefficient as a complex number, `Complex::new(c, 0.0)`. */
  function Lift(c: real): Complex
  {
    Complex(c, 0.0)
  }

  function Add(a: Complex, b: Complex): Complex
  {
    Complex(a.re + b.re, a.im + b.im)
  }

  function Sub(a: Complex, b: Complex): Complex
  {
    Complex(a.re - b.re, a.im - b.im)
  }

  function Mul(a: Complex, b: Complex): Complex
  {
    Complex(a.re * b.re - a.im * b.im, a.re * b.im + a.im * b.re)
  }

  function NormSqr(a: Complex): real
  {
    a.re * a.re + a.im * a.im
  }

  /** `l1_norm`: the residual measure the drivers compare against their tolerances. */
  function L1Norm(a: Complex): (r: real)
    ensures r >= 0.0
    ensures r == 0.0 <==> a == Zero
  {
    Abs(a.re) + Abs(a.im)
  }

  /**
   * Complex division as `num` computes it, `((a.re*b.re + a.im*b.im) + (a.im*b.re - a.re*b.im)i) / |b|^2`.
   * The source never guards a zero denominator (in f64 it yields NaN or infinity); the model
   * makes division total by returning Zero when `|b|^2` is zero (over the reals, exactly when b
   * is Zero), so a degenerate correction leaves a root where it is.
   */
  function Div(a: Complex, b: Complex): (q: Complex)
    ensures b == Zero ==> q == Zero
    ensures a == Zero ==> q == Zero
  {
    var n := NormSqr(b);
    if n == 0.0 then Zero
    else Complex((a.re * b.re + a.im * b.im) / n, (a.im * b.re - a.re * b.im) / n)
  }

  /** Division undoes multiplication whenever the divisor is not Zero. */
  lemma DivInverts(a: Complex, b: Complex)
    requires NormSqr(b) != 0.0
    ensures Mul(Div(a, b), b) == a
  {
    var n := NormSqr(b);
    DivTimesDivisor(a, b, n, Complex((a.re * b.re + a.im * b.im) / n, (a.im * b.re - a.re * b.im) / n));
  }

  lemma DivTimesDivisor(a: Complex, b: Complex, n: real, q: Complex)
    requires n == NormSqr(b) && n != 0.0
    requires q == Complex((a.re * b.re + a.im * b.im) / n, (a.im * b.re - a.re * b.im) / n)
    ensures Mul(q, b) == a
  {
    var u, v := a.re * b.re + a.im * b.im, a.im * b.re - a.re * b.im;
    assert q.re * n == u && q.im * n == v;
    calc {
      (q.re * b.re - q.im * b.im) * n;
      (q.re * n) * b.re - (q.im * n) * b.im;
      u * b.re - v * b.im;
      a.re * n;
    }
    calc {
      (q.re * b.im + q.im * b.re) * n;
      (q.re * n) * b.im + (q.im * n) * b.re;
      u * b.im + v * b.re;
      a.im * n;
    }
  }

  // Ring laws used by the Horner lemmas.

  lemma MulAddDistrib(u: Complex, v: Complex, z: Complex)
    ensures Mul(Add(u, v), z) == Add(Mul(u, z), Mul(v, z))
  {
  }

  lemma MulAssoc(a: Complex, b: Complex, c: Complex)
    ensures Mul(Mul(a, b), c) == Mul(a, Mul(b, c))
  {
  }

  lemma MulComm(a: Complex, b: Complex)
    ensures Mul(a, b) == Mul(b, a)
  {
  }
}
