/**
 * The 2-D vector `numeric::vector2`, instantiated over reals. Its components are fields the
 * compound operators update in place; the accessors, `norm_inf`, `dot` and `cross` are
 * functions of the current state; unary minus and the by-value binary operators build a
 * fresh vector and leave their operands alone.
 */
module Numeric {
  import opened RealOps

  class Vector2 {
    var x: real
    var y: real

    /** Both value constructors store the given components. */
    constructor (x0: real, y0: real)
      ensures x == x0 && y == y0
    {
      x, y := x0, y0;
    }

    /** The converting copy constructor takes the components of `other`. */
    constructor Copy(other: Vector2)
      ensures x == other.x && y == other.y
    {
      x, y := other.x, other.y;
    }

    /** The first component. */
    function X(): (r: real)
      reads this
      ensures r == x
    {
      x
    }

    /** The second component. */
    function Y(): (r: real)
      reads this
      ensures r == y
    {
      y
    }

    /** The maximum norm: the larger of the two absolute components. */
    function NormInf(): (r: real)
      reads this
      ensures r >= Abs(x) && r >= Abs(y)
      ensures r == Abs(x) || r == Abs(y)
    {
      Max(Abs(x), Abs(y))
    }

    /** The dot product; DotSymmetric and Lagrange state its laws. */
    function Dot(other: Vector2): real
      reads this, other
    {
      x * other.x + y * other.y
    }

    /** The 2-D cross product; CrossAntisymmetric, CrossSelfZero and Lagrange state its laws. */
    function Cross(other: Vector2): real
      reads this, other
    {
      x * other.y - other.x * y
    }

    /** Unary minus: a new vector with both components negated. */
    method Neg() returns (r: Vector2)
      ensures fresh(r) && r.x == -x && r.y == -y
    {
      r := new Vector2(-x, -y);
    }

    /**
     * `+=`: adds the components of `other` (read before the update, so `v += v` doubles `v`)
     * and returns the receiver for chaining.
     */
    method AddAssign(other: Vector2) returns (r: Vector2)
      modifies this
      ensures x == old(x) + old(other.x) && y == old(y) + old(other.y)
      ensures r == this
    {
      var ox, oy := other.x, other.y;
      x := x + ox;
      y := y + oy;
      r := this;
    }

    /** `-=`: subtracts the components of `other` and returns the receiver. */
    method SubAssign(other: Vector2) returns (r: Vector2)
      modifies this
      ensures x == old(x) - old(other.x) && y == old(y) - old(other.y)
      ensures r == this
    {
      var ox, oy := other.x, other.y;
      x := x - ox;
      y := y - oy;
      r := this;
    }

    /** `*=`: scales both components by alpha and returns the receiver. */
    method MulAssign(alpha: real) returns (r: Vector2)
      modifies this
      ensures x == old(x) * alpha && y == old(y) * alpha
      ensures r == this
    {
      x := x * alpha;
      y := y * alpha;
      r := this;
    }

    /** `/=`: divides both components by a nonzero alpha and returns the receiver. */
    method DivAssign(alpha: real) returns (r: Vector2)
      requires alpha != 0.0
      modifies this
      ensures x == old(x) / alpha && y == old(y) / alpha
      ensures r == this
    {
      x := x / alpha;
      y := y / alpha;
      r := this;
    }

    /** Friend `+`: a copy of the left operand with `+=` applied. */
    static method Add(a: Vector2, b: Vector2) returns (r: Vector2)
      ensures fresh(r) && r.x == a.x + b.x && r.y == a.y + b.y
    {
      r := new Vector2.Copy(a);
      r := r.AddAssign(b);
    }

    /** Friend `-`: a copy of the left operand with `-=` applied. */
    static method Sub(a: Vector2, b: Vector2) returns (r: Vector2)
      ensures fresh(r) && r.x == a.x - b.x && r.y == a.y - b.y
    {
      r := new Vector2.Copy(a);
      r := r.SubAssign(b);
    }

    /** Friend `v * alpha`: a copy of v with `*=` applied. */
    static method Scale(a: Vector2, alpha: real) returns (r: Vector2)
      ensures fresh(r) && r.x == a.x * alpha && r.y == a.y * alpha
    {
      r := new Vector2.Copy(a);
      r := r.MulAssign(alpha);
    }

    /** Friend `alpha * v`: the same copy-and-scale, with the scalar on the left. */
    static method ScaleLeft(alpha: real, a: Vector2) returns (r: Vector2)
      ensures fresh(r) && r.x == alpha * a.x && r.y == alpha * a.y
    {
      r := new Vector2.Copy(a);
      r := r.MulAssign(alpha);
    }

    /** Friend `/`: a copy of v with `/=` applied. */
    static method Div(a: Vector2, alpha: real) returns (r: Vector2)
      requires alpha != 0.0
      ensures fresh(r) && r.x == a.x / alpha && r.y == a.y / alpha
    {
      r := new Vector2.Copy(a);
      r := r.DivAssign(alpha);
    }
  }

  // ---- laws of the products and the norm ----

  /** The norm is zero exactly for the zero vector. */
  lemma NormInfZero(v: Vector2)
    ensures v.NormInf() == 0.0 <==> v.x == 0.0 && v.y == 0.0
  {
  }

  lemma DotSymmetric(v: Vector2, w: Vector2)
    ensures v.Dot(w) == w.Dot(v)
  {
  }

  lemma CrossAntisymmetric(v: Vector2, w: Vector2)
    ensures v.Cross(w) == -w.Cross(v)
  {
  }

  lemma CrossSelfZero(v: Vector2)
    ensures v.Cross(v) == 0.0
  {
  }

  /** Lagrange's identity: the squared dot and cross products add up to the product of the squared lengths. */
  lemma Lagrange(v: Vector2, w: Vector2)
    ensures v.Dot(w) * v.Dot(w) + v.Cross(w) * v.Cross(w) == v.Dot(v) * w.Dot(w)
  {
    var a, b, c, d := v.x, v.y, w.x, w.y;
    calc {
      (a * c + b * d) * (a * c + b * d) + (a * d - c * b) * (a * d - c * b);
      a * a * c * c + 2.0 * a * b * c * d + b * b * d * d + a * a * d * d - 2.0 * a * b * c * d + b * b * c * c;
      (a * a + b * b) * (c * c + d * d);
    }
  }

  // ---- laws of the operators ----

  /** Negating twice gives back the original components. */
  method NegTwice(v: Vector2) returns (r: Vector2)
    ensures r != v && r.x == v.x && r.y == v.y
  {
    var n := v.Neg();
    r := n.Neg();
  }

  /**
   * `v += w; v -= w` restores `v` when the two are distinct objects; when they are the same
   * object the first step doubles `v` and the second subtracts it from itself, leaving zero.
   */
  method AddThenSub(v: Vector2, w: Vector2)
    modifies v
    ensures v != w ==> v.x == old(v.x) && v.y == old(v.y)
    ensures v == w ==> v.x == 0.0 && v.y == 0.0
  {
    var _ := v.AddAssign(w);
    var _ := v.SubAssign(w);
  }

  /** `v *= alpha; v /= alpha` restores `v` for a nonzero scalar value alpha. */
  method ScaleThenDiv(v: Vector2, alpha: real)
    requires alpha != 0.0
    modifies v
    ensures v.x == old(v.x) && v.y == old(v.y)
  {
    var _ := v.MulAssign(alpha);
    var _ := v.DivAssign(alpha);
  }

  /** `(a + b) - b` by the by-value operators gives back a's components and changes neither operand. */
  method AddSubValues(a: Vector2, b: Vector2) returns (r: Vector2)
    ensures r != a && r != b && r.x == a.x && r.y == a.y
  {
    var s := Vector2.Add(a, b);
    r := Vector2.Sub(s, b);
  }

  /** `(a * alpha) / alpha` gives back a's components for nonzero alpha. */
  method ScaleDivValues(a: Vector2, alpha: real) returns (r: Vector2)
    requires alpha != 0.0
    ensures r != a && r.x == a.x && r.y == a.y
  {
    var s := Vector2.Scale(a, alpha);
    r := Vector2.Div(s, alpha);
  }

  /** The scalar may stand on either side of `*`. */
  method ScaleCommutes(a: Vector2, alpha: real) returns (r1: Vector2, r2: Vector2)
    ensures r1 != r2 && r1.x == r2.x && r1.y == r2.y
  {
    r1 := Vector2.Scale(a, alpha);
    r2 := Vector2.ScaleLeft(alpha, a);
  }
}
