/** Real-number helpers shared by the complex arithmetic and the 2-D vector. */
module RealOps {

  /** Absolute value, as `f64::abs` and `abs` are used by the source. */
  function Abs(a: real): (r: real)
    ensures r >= 0.0 && (r == a || r == -a)
  {
    if a < 0.0 then -a else a
  }

  /** The larger of two reals, as `std::max` returns it. */
  function Max(a: real, b: real): (r: real)
    ensures r >= a && r >= b && (r == a || r == b)
  {
    if a < b then b else a
  }
}
