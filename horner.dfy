/**
 * Horner evaluation (`horner_eval_f`, `horner_eval_c`) and the derivative coefficients that
 * the two Aberth drivers build on entry. Coefficients are ordered highest degree first.
 */
module Horner {
  import opened ComplexNum

  /**
   * `horner_eval_f`: the left fold `res <- res * z + c` that starts from `coeffs[0]`.
   * An empty slice makes the source's `unwrap` fail, hence the precondition.
   */
  function HornerF(coeffs: seq<real>, z: real): real
    requires |coeffs| > 0
  {
    if |coeffs| == 1 then coeffs[0]
    else HornerF(coeffs[..|coeffs| - 1], z) * z + coeffs[|coeffs| - 1]
  }

  /** `horner_eval_c`: the same fold at a complex point, each real coefficient lifted to `(c, 0)`. */
  function HornerC(coeffs: seq<real>, z: Complex): Complex
    requires |coeffs| > 0
  {
    if |coeffs| == 1 then Lift(coeffs[0])
    else Add(Mul(HornerC(coeffs[..|coeffs| - 1], z), z), Lift(coeffs[|coeffs| - 1]))
  }

  function Pow(x: real, n: nat): real
  {
    if n == 0 then 1.0 else x * Pow(x, n - 1)
  }

  function CPow(z: Complex, n: nat): Complex
  {
    if n == 0 then Lift(1.0) else Mul(z, CPow(z, n - 1))
  }

  /** The polynomial as a sum: the sum over i of coeffs[i] * z^(|coeffs| - 1 - i). */
  function PolyValue(coeffs: seq<real>, z: real): real
    decreases |coeffs|
  {
    if coeffs == [] then 0.0
    else coeffs[0] * Pow(z, |coeffs| - 1) + PolyValue(coeffs[1..], z)
  }

  /** The same sum at a complex point. */
  function CPolyValue(coeffs: seq<real>, z: Complex): Complex
    decreases |coeffs|
  {
    if coeffs == [] then Zero
    else Add(Mul(Lift(coeffs[0]), CPow(z, |coeffs| - 1)), CPolyValue(coeffs[1..], z))
  }

  /** Appending a lowest-order coefficient multiplies the polynomial by z and adds it. */
  lemma {:induction false} PolyValueSnoc(cs: seq<real>, c: real, z: real)
    ensures PolyValue(cs + [c], z) == PolyValue(cs, z) * z + c
    decreases |cs|
  {
    if cs == [] {
      assert [] + [c] == [c];
      assert [c][1..] == [];
    } else {
      assert (cs + [c])[1..] == cs[1..] + [c];
      PolyValueSnoc(cs[1..], c, z);
      var p := Pow(z, |cs| - 1);
      assert Pow(z, |cs|) == z * p;
      assert cs[0] * (z * p) == (cs[0] * p) * z;
    }
  }

  /** Horner's fold computes the polynomial's value. */
  lemma {:induction false} HornerFIsPolyValue(cs: seq<real>, z: real)
    requires |cs| > 0
    ensures HornerF(cs, z) == PolyValue(cs, z)
    decreases |cs|
  {
    if |cs| == 1 {
      assert cs[1..] == [];
    } else {
      var init := cs[..|cs| - 1];
      HornerFIsPolyValue(init, z);
      assert init + [cs[|cs| - 1]] == cs;
      PolyValueSnoc(init, cs[|cs| - 1], z);
    }
  }

  lemma {:induction false} CPolyValueSnoc(cs: seq<real>, c: real, z: Complex)
    ensures CPolyValue(cs + [c], z) == Add(Mul(CPolyValue(cs, z), z), Lift(c))
    decreases |cs|
  {
    if cs == [] {
      assert [] + [c] == [c];
      assert [c][1..] == [];
    } else {
      assert (cs + [c])[1..] == cs[1..] + [c];
      CPolyValueSnoc(cs[1..], c, z);
      var p := CPow(z, |cs| - 1);
      var t := Mul(Lift(cs[0]), p);
      assert CPow(z, |cs|) == Mul(z, p);
      calc {
        Mul(Lift(cs[0]), Mul(z, p));
        { MulComm(z, p); }
        Mul(Lift(cs[0]), Mul(p, z));
        { MulAssoc(Lift(cs[0]), p, z); }
        Mul(t, z);
      }
      MulAddDistrib(t, CPolyValue(cs[1..], z), z);
    }
  }

  /** Horner's fold at a complex point computes the polynomial's value there. */
  lemma {:induction false} HornerCIsPolyValue(cs: seq<real>, z: Complex)
    requires |cs| > 0
    ensures HornerC(cs, z) == CPolyValue(cs, z)
    decreases |cs|
  {
    if |cs| == 1 {
      assert cs[1..] == [];
    } else {
      var init := cs[..|cs| - 1];
      HornerCIsPolyValue(init, z);
      assert init + [cs[|cs| - 1]] == cs;
      CPolyValueSnoc(init, cs[|cs| - 1], z);
    }
  }

  /** On the real axis the complex evaluation is the real one, with zero imaginary part. */
  lemma {:induction false} HornerCOnRealAxis(cs: seq<real>, x: real)
    requires |cs| > 0
    ensures HornerC(cs, Complex(x, 0.0)) == Complex(HornerF(cs, x), 0.0)
    decreases |cs|
  {
    if |cs| > 1 {
      HornerCOnRealAxis(cs[..|cs| - 1], x);
    }
  }

  /** The derivative coefficients `pb[i] = coeffs[i] * (degree - i)`, of length `degree`. */
  function Derivative(coeffs: seq<real>): seq<real>
    requires |coeffs| > 0
  {
    seq(|coeffs| - 1, i requires 0 <= i < |coeffs| - 1 => coeffs[i] * ((|coeffs| - 1 - i) as real))
  }

  /**
   * The formal derivative of the coefficient polynomial as a sum:
   * the sum over i < degree of coeffs[i] * (degree - i) * z^(degree - 1 - i).
   */
  function DerivValue(coeffs: seq<real>, z: real): real
    decreases |coeffs|
  {
    if |coeffs| <= 1 then 0.0
    else coeffs[0] * ((|coeffs| - 1) as real) * Pow(z, |coeffs| - 2) + DerivValue(coeffs[1..], z)
  }

  /** DerivValue obeys the product rule: (P(z) * z + c)' = P'(z) * z + P(z). */
  lemma {:induction false} DerivValueProductRule(cs: seq<real>, c: real, z: real)
    requires |cs| > 0
    ensures DerivValue(cs + [c], z) == DerivValue(cs, z) * z + PolyValue(cs, z)
    decreases |cs|
  {
    var n := |cs|;
    assert (cs + [c])[1..] == cs[1..] + [c];
    if n == 1 {
      assert cs[1..] == [];
      assert [c][1..] == [];
    } else {
      DerivValueProductRule(cs[1..], c, z);
      var p := Pow(z, n - 2);
      assert Pow(z, n - 1) == z * p;
      var a := cs[0];
      assert a * (n as real) * (z * p) == a * ((n - 1) as real) * p * z + a * (z * p);
    }
  }

  lemma DerivativeTail(cs: seq<real>)
    requires |cs| >= 2
    ensures Derivative(cs) == [cs[0] * ((|cs| - 1) as real)] + Derivative(cs[1..])
  {
    var d, t := Derivative(cs), Derivative(cs[1..]);
    var r := [cs[0] * ((|cs| - 1) as real)] + t;
    assert |d| == |r|;
    forall i | 0 <= i < |d|
      ensures d[i] == r[i]
    {
      if i > 0 {
        assert r[i] == t[i - 1];
        assert cs[1..][i - 1] == cs[i];
        assert |cs[1..]| - 1 - (i - 1) == |cs| - 1 - i;
      }
    }
    assert d == r;
  }

  lemma {:induction false} PolyValueOfDerivative(cs: seq<real>, z: real)
    requires |cs| > 0
    ensures PolyValue(Derivative(cs), z) == DerivValue(cs, z)
    decreases |cs|
  {
    if |cs| == 1 {
      assert Derivative(cs) == [];
    } else {
      DerivativeTail(cs);
      var d := Derivative(cs);
      assert d[1..] == Derivative(cs[1..]);
      PolyValueOfDerivative(cs[1..], z);
    }
  }

  /** Horner evaluation of the derivative coefficients is the formal derivative. */
  lemma HornerOfDerivative(cs: seq<real>, z: real)
    requires |cs| >= 2
    ensures HornerF(Derivative(cs), z) == DerivValue(cs, z)
    ensures HornerC(Derivative(cs), Complex(z, 0.0)) == Complex(DerivValue(cs, z), 0.0)
  {
    HornerFIsPolyValue(Derivative(cs), z);
    PolyValueOfDerivative(cs, z);
    HornerCOnRealAxis(Derivative(cs), z);
  }

  /**
   * The loop at the top of both drivers that fills `pb`. The source subtracts one from the
   * length, which fails for an empty slice.
   */
  method DerivativeCoeffs(coeffs: seq<real>) returns (pb: seq<real>)
    requires |coeffs| > 0
    ensures |pb| == |coeffs| - 1
    ensures forall i :: 0 <= i < |pb| ==> pb[i] == coeffs[i] * ((|coeffs| - 1 - i) as real)
    ensures pb == Derivative(coeffs)
  {
    var degree := |coeffs| - 1;
    var a := new real[degree](_ => 0.0);
    for i := 0 to degree
      invariant forall k :: 0 <= k < i ==> a[k] == coeffs[k] * ((degree - k) as real)
    {
      a[i] := coeffs[i] * ((degree - i) as real);
    }
    pb := a[..];
    var d := Derivative(coeffs);
    assert |pb| == |d|;
    forall k | 0 <= k < |pb|
      ensures pb[k] == d[k]
    {
    }
    assert pb == d;
  }

  const ExampleCoeffs: seq<real> := [10.0, 34.0, 75.0, 94.0, 150.0, 94.0, 75.0, 34.0, 10.0]

  /** The documented real example: the degree-8 polynomial at 2 is 18250. */
  lemma HornerFExample()
    ensures HornerF(ExampleCoeffs, 2.0) == 18250.0
  {
    var c := ExampleCoeffs;
    assert HornerF(c[..1], 2.0) == 10.0;
    assert HornerF(c[..2], 2.0) == 54.0 by { assert c[..2][..1] == c[..1]; }
    assert HornerF(c[..3], 2.0) == 183.0 by { assert c[..3][..2] == c[..2]; }
    assert HornerF(c[..4], 2.0) == 460.0 by { assert c[..4][..3] == c[..3]; }
    assert HornerF(c[..5], 2.0) == 1070.0 by { assert c[..5][..4] == c[..4]; }
    assert HornerF(c[..6], 2.0) == 2234.0 by { assert c[..6][..5] == c[..5]; }
    assert HornerF(c[..7], 2.0) == 4543.0 by { assert c[..7][..6] == c[..6]; }
    assert HornerF(c[..8], 2.0) == 9120.0 by { assert c[..8][..7] == c[..7]; }
    assert c[..9] == c;
  }

  /** The documented complex example: the same polynomial at 1 + 2i is 6080 + 9120i. */
  lemma HornerCExample()
    ensures HornerC(ExampleCoeffs, Complex(1.0, 2.0)) == Complex(6080.0, 9120.0)
  {
    var c, z := ExampleCoeffs, Complex(1.0, 2.0);
    assert HornerC(c[..1], z) == Complex(10.0, 0.0);
    assert HornerC(c[..2], z) == Complex(44.0, 20.0) by { assert c[..2][..1] == c[..1]; }
    assert HornerC(c[..3], z) == Complex(79.0, 108.0) by { assert c[..3][..2] == c[..2]; }
    assert HornerC(c[..4], z) == Complex(-43.0, 266.0) by { assert c[..4][..3] == c[..3]; }
    assert HornerC(c[..5], z) == Complex(-425.0, 180.0) by { assert c[..5][..4] == c[..4]; }
    assert HornerC(c[..6], z) == Complex(-691.0, -670.0) by { assert c[..6][..5] == c[..5]; }
    assert HornerC(c[..7], z) == Complex(724.0, -2052.0) by { assert c[..7][..6] == c[..6]; }
    assert HornerC(c[..8], z) == Complex(4862.0, -604.0) by { assert c[..8][..7] == c[..7]; }
    assert c[..9] == c;
  }
}
