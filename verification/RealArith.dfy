// Small facts about products and quotients of reals.  Each is one step of the
// solver's nonlinear arithmetic, kept apart so that larger proofs stay linear.
module RealArith {
  function Abs(x: real): (r: real)
    ensures r >= 0.0 && -r <= x <= r && (r == x || r == -x)
  {
    if x < 0.0 then -x else x
  }

  function Max(x: real, y: real): (r: real)
    ensures r >= x && r >= y && (r == x || r == y)
  {
    if x < y then y else x
  }

  lemma MulMono(a: real, x: real, y: real)
    requires a >= 0.0 && x <= y
    ensures a * x <= a * y
  {
    assert a * (y - x) >= 0.0;
  }

  lemma MulStrict(a: real, x: real, y: real)
    requires a > 0.0 && x < y
    ensures a * x < a * y
  {
    assert a * (y - x) > 0.0;
  }

  lemma MulCancelLe(a: real, x: real, y: real)
    requires a > 0.0 && a * x <= a * y
    ensures x <= y
  {
    if y < x {
      MulStrict(a, y, x);
    }
  }

  lemma MulCancel(a: real, x: real, y: real)
    requires a != 0.0 && a * x == a * y
    ensures x == y
  {
    assert a * (x - y) == 0.0;
  }

  lemma DivMul(x: real, a: real)
    requires a != 0.0
    ensures x / a * a == x && a * (x / a) == x
  {
  }

  lemma DivScale(x: real, d: real, y: real)
    requires d != 0.0
    ensures x / d * y == x * y / d
  {
    DivMul(x, d);
    DivMul(x * y, d);
    var u, v := x / d * y, x * y / d;
    assert d * u == (d * (x / d)) * y;
    MulCancel(d, u, v);
  }

  lemma MulWithin(a: real, x: real, bound: real)
    requires a >= 0.0 && -bound <= x <= bound
    ensures -(a * bound) <= a * x <= a * bound
  {
    MulMono(a, x, bound);
    MulMono(a, -bound, x);
  }

  // A sum with nonnegative weights stays within their total times the bound.
  lemma WeightedBound(a: real, b: real, x: real, y: real, bound: real, total: real)
    requires a >= 0.0 && b >= 0.0 && a + b <= total && bound >= 0.0
    requires -bound <= x <= bound && -bound <= y <= bound
    ensures -(total * bound) <= a * x + b * y <= total * bound
  {
    MulWithin(a, x, bound);
    MulWithin(b, y, bound);
    MulMono(bound, a + b, total);
  }
}
