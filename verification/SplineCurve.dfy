// The curve evaluated from a table and its second derivatives, compared with an
// independent definition: the natural cubic spline through the table's points.
module SplineCurve {
  import opened RealArith
  import opened SplineSystem

  // A cubic in the distance s from the left end of its interval.
  datatype Cubic = Cubic(c0: real, c1: real, c2: real, c3: real) {
    function Value(s: real): real {
      c0 + s * (c1 + s * (c2 + s * c3))
    }

    function Slope(s: real): real {
      c1 + s * (2.0 * c2 + s * (3.0 * c3))
    }

    function Curvature(s: real): real {
      2.0 * c2 + s * (6.0 * c3)
    }
  }

  // Slope and Curvature are the first and second derivatives of Value: they are
  // the coefficients of its exact expansion around any point.
  lemma Expansion(c: Cubic, s: real, d: real)
    ensures c.Value(s + d) == c.Value(s) + d * (c.Slope(s) + d * (c.Curvature(s) / 2.0 + d * c.c3))
    ensures c.Slope(s + d) == c.Slope(s) + d * (c.Curvature(s) + d * (3.0 * c.c3))
  {
  }

  // The cubic _eval uses on interval i, in the order of its operations.
  function Piece(t: seq<real>, y: seq<real>, m: seq<real>, i: int): Cubic
    requires |t| == |y| == |m| && 0 <= i < |t| - 1 && Step(t, i) != 0.0
  {
    var h := Step(t, i);
    Cubic(y[i], (y[i + 1] - y[i]) / h - (m[i + 1] / 6.0 + m[i] / 3.0) * h, 0.5 * m[i], (m[i + 1] - m[i]) / (6.0 * h))
  }

  ghost function Pieces(t: seq<real>, y: seq<real>, m: seq<real>): (ps: seq<Cubic>)
    requires Knots(t) && |t| == |y| == |m|
  {
    seq(|t| - 1, i requires 0 <= i < |t| - 1 => assert Step(t, i) > 0.0; Piece(t, y, m, i))
  }

  // ---- What a natural cubic spline is -------------------------------------

  ghost predicate Interpolates(t: seq<real>, y: seq<real>, c: Cubic, i: int)
    requires |t| == |y| && 0 <= i < |t| - 1
  {
    c.Value(0.0) == y[i] && c.Value(Step(t, i)) == y[i + 1]
  }

  ghost predicate SmoothJoin(t: seq<real>, left: Cubic, right: Cubic, i: int)
    requires 0 < i < |t| - 1
  {
    && left.Slope(Step(t, i - 1)) == right.Slope(0.0)
    && left.Curvature(Step(t, i - 1)) == right.Curvature(0.0)
  }

  // One cubic per interval through the data, twice continuously differentiable
  // at interior knots, without curvature at either end.
  ghost predicate NaturalSpline(t: seq<real>, y: seq<real>, ps: seq<Cubic>) {
    && |t| >= 2 && |y| == |t| && |ps| == |t| - 1
    && (forall i :: 0 <= i < |ps| ==> Interpolates(t, y, ps[i], i))
    && (forall i :: 0 < i < |ps| ==> SmoothJoin(t, ps[i - 1], ps[i], i))
    && ps[0].Curvature(0.0) == 0.0
    && ps[|ps| - 1].Curvature(Step(t, |t| - 2)) == 0.0
  }

  // ---- Properties of one piece --------------------------------------------

  // (q/(6h))*h and relatives, written out for scalars.
  lemma PieceEnds(y0: real, y1: real, m0: real, m1: real, h: real)
    requires h != 0.0
    ensures var c := Cubic(y0, (y1 - y0) / h - (m1 / 6.0 + m0 / 3.0) * h, 0.5 * m0, (m1 - m0) / (6.0 * h));
            && c.Value(0.0) == y0 && c.Value(h) == y1
            && c.Curvature(0.0) == m0 && c.Curvature(h) == m1
            && c.Slope(0.0) == (y1 - y0) / h - (m1 / 6.0 + m0 / 3.0) * h
            && c.Slope(h) == (y1 - y0) / h + (m1 / 3.0 + m0 / 6.0) * h
  {
    var d, k := (y1 - y0) / h, (m1 - m0) / (6.0 * h);
    DivMul(y1 - y0, h);
    DivMul(m1 - m0, 6.0 * h);
    assert h * k == (m1 - m0) / 6.0;
    assert h * d == y1 - y0;
    var c := Cubic(y0, d - (m1 / 6.0 + m0 / 3.0) * h, 0.5 * m0, k);
    calc {
      c.Value(h);
      y0 + h * (d - (m1 / 6.0 + m0 / 3.0) * h + h * (0.5 * m0 + h * k));
      y0 + h * (d - (m1 / 6.0 + m0 / 3.0) * h + h * (0.5 * m0 + (m1 - m0) / 6.0));
      { assert h * (0.5 * m0 + (m1 - m0) / 6.0) == (m1 / 6.0 + m0 / 3.0) * h; }
      y0 + h * d;
      y1;
    }
    calc {
      c.Slope(h);
      d - (m1 / 6.0 + m0 / 3.0) * h + h * (2.0 * (0.5 * m0) + h * (3.0 * k));
      { assert h * (3.0 * k) == 3.0 * (h * k); }
      d - (m1 / 6.0 + m0 / 3.0) * h + h * (m0 + (m1 - m0) / 2.0);
      d + (m1 / 3.0 + m0 / 6.0) * h;
    }
    assert h * (6.0 * k) == 6.0 * (h * k);
  }

  lemma Quotient(a: real, x: real)
    requires a != 0.0
    ensures a * x / a == x
  {
    DivMul(a * x, a);
    MulCancel(a, a * x / a, x);
  }

  // A cubic is determined by its end values and end curvatures.
  lemma PieceDetermined(c: Cubic, h: real)
    requires h != 0.0
    ensures c == Cubic(c.Value(0.0),
                       (c.Value(h) - c.Value(0.0)) / h - (c.Curvature(h) / 6.0 + c.Curvature(0.0) / 3.0) * h,
                       0.5 * c.Curvature(0.0), (c.Curvature(h) - c.Curvature(0.0)) / (6.0 * h))
  {
    var rise := c.c1 + h * (c.c2 + h * c.c3);
    assert c.Value(h) - c.Value(0.0) == h * rise;
    Quotient(h, rise);
    assert c.Curvature(h) - c.Curvature(0.0) == h * (6.0 * c.c3) == 6.0 * h * c.c3;
    Quotient(6.0 * h, c.c3);
    assert c.Curvature(h) / 6.0 + c.Curvature(0.0) / 3.0 == c.c2 + h * c.c3;
    assert (c.c2 + h * c.c3) * h == h * (c.c2 + h * c.c3);
  }

  // Slopes of neighbouring pieces agree at their knot exactly when the system's
  // row for that knot holds.
  lemma SlopesAgree(t: seq<real>, y: seq<real>, m: seq<real>, i: int)
    requires Knots(t) && |t| == |y| == |m| && 0 < i < |t| - 1
    ensures SmoothJoin(t, Pieces(t, y, m)[i - 1], Pieces(t, y, m)[i], i) <==> RowValue(t, m, i) == Jumps(t, y)[i]
  {
    var hl, hr := Step(t, i - 1), Step(t, i);
    assert hl > 0.0 && hr > 0.0;
    PieceEnds(y[i - 1], y[i], m[i - 1], m[i], hl);
    PieceEnds(y[i], y[i + 1], m[i], m[i + 1], hr);
    assert t[i + 1] - t[i - 1] == hl + hr;
    JoinIff((y[i] - y[i - 1]) / hl, (y[i + 1] - y[i]) / hr, hl, hr, m[i - 1], m[i], m[i + 1]);
    hide Cubic.Value, Cubic.Slope, Cubic.Curvature;
  }

  lemma JoinIff(dl: real, dr: real, hl: real, hr: real, p: real, c: real, q: real)
    ensures dl + (c / 3.0 + p / 6.0) * hl == dr - (q / 6.0 + c / 3.0) * hr <==>
      hl / 6.0 * p + (hl + hr) / 3.0 * c + hr / 6.0 * q == dr - dl
  {
    RowAsSlopes(hl, hr, p, c, q);
  }

  lemma RowAsSlopes(hl: real, hr: real, p: real, c: real, q: real)
    ensures hl / 6.0 * p + (hl + hr) / 3.0 * c + hr / 6.0 * q == (c / 3.0 + p / 6.0) * hl + (q / 6.0 + c / 3.0) * hr
  {
    DivScale(hl, 6.0, p);
    DivScale(hl + hr, 3.0, c);
    DivScale(hr, 6.0, q);
    assert (hl + hr) * c == hl * c + hr * c;
    assert (c / 3.0 + p / 6.0) * hl == hl * c / 3.0 + hl * p / 6.0;
    assert (q / 6.0 + c / 3.0) * hr == hr * q / 6.0 + hr * c / 3.0;
  }

  lemma PieceInterpolates(t: seq<real>, y: seq<real>, m: seq<real>, i: int)
    requires Knots(t) && |t| == |y| == |m| && 0 <= i < |t| - 1
    ensures Interpolates(t, y, Pieces(t, y, m)[i], i)
    ensures Pieces(t, y, m)[i].Curvature(0.0) == m[i] && Pieces(t, y, m)[i].Curvature(Step(t, i)) == m[i + 1]
  {
    assert Step(t, i) > 0.0;
    PieceEnds(y[i], y[i + 1], m[i], m[i + 1], Step(t, i));
  }

  // ---- Main theorems ------------------------------------------------------

  // The evaluated curve is a natural cubic spline exactly when its second
  // derivatives solve the table's system.
  lemma CurveIsNaturalSpline(t: seq<real>, y: seq<real>, m: seq<real>)
    requires Knots(t) && |t| == |y| == |m|
    ensures NaturalSpline(t, y, Pieces(t, y, m)) <==> SecondDerivatives(t, y, m)
  {
    var ps := Pieces(t, y, m);
    forall i | 0 <= i < |ps|
      ensures Interpolates(t, y, ps[i], i)
    {
      PieceInterpolates(t, y, m, i);
    }
    forall i | 0 < i < |ps|
      ensures SmoothJoin(t, ps[i - 1], ps[i], i) <==> RowValue(t, m, i) == Jumps(t, y)[i]
    {
      SlopesAgree(t, y, m, i);
    }
    PieceInterpolates(t, y, m, 0);
    PieceInterpolates(t, y, m, |t| - 2);
    if NaturalSpline(t, y, ps) {
      forall i | 0 < i < |t| - 1
        ensures RowValue(t, m, i) == Jumps(t, y)[i]
      {
        assert SmoothJoin(t, ps[i - 1], ps[i], i);
      }
    }
    if SecondDerivatives(t, y, m) {
      forall i | 0 < i < |ps|
        ensures SmoothJoin(t, ps[i - 1], ps[i], i)
      {
        assert RowValue(t, m, i) == Jumps(t, y)[i];
      }
    }
  }

  // Every natural cubic spline through the table is the evaluated curve.
  lemma NaturalSplineUnique(t: seq<real>, y: seq<real>, m: seq<real>, ps: seq<Cubic>)
    requires Knots(t) && |t| == |y| && SecondDerivatives(t, y, m) && NaturalSpline(t, y, ps)
    ensures ps == Pieces(t, y, m)
  {
    var n := seq(|t|, i requires 0 <= i < |t| => if i < |ps| then ps[i].Curvature(0.0) else 0.0);
    forall i | 0 <= i < |ps|
      ensures ps[i] == Pieces(t, y, n)[i]
    {
      assert Step(t, i) > 0.0;
      assert Interpolates(t, y, ps[i], i);
      assert ps[i].Curvature(Step(t, i)) == n[i + 1] by {
        if i + 1 < |ps| {
          assert SmoothJoin(t, ps[i], ps[i + 1], i + 1);
        }
      }
      PieceDetermined(ps[i], Step(t, i));
    }
    assert ps == Pieces(t, y, n);
    CurveIsNaturalSpline(t, y, n);
    UniqueSolution(t, Jumps(t, y), m, n);
  }

  // ---- The curve against the data -----------------------------------------

  // Height of the chord of interval i at distance s from its left end.
  function Chord(t: seq<real>, y: seq<real>, i: int, s: real): real
    requires |t| == |y| && 0 <= i < |t| - 1 && Step(t, i) != 0.0
  {
    y[i] + s * ((y[i + 1] - y[i]) / Step(t, i))
  }

  lemma AreaBound(h: real, s: real)
    requires 0.0 <= s <= h
    ensures 0.0 <= s * (h - s) <= h * h / 4.0
  {
    var r := h - 2.0 * s;
    assert 4.0 * (s * (h - s)) == h * h - r * r && r * r >= 0.0;
  }

  // The weights a and b with which the end curvatures pull a piece away from
  // its chord.  r is s / (6h).
  lemma Weights(h: real, s: real, r: real)
    requires h > 0.0 && 0.0 <= s <= h && 6.0 * h * r == s
    ensures s * h / 3.0 - s * s / 2.0 + s * s * r >= 0.0
    ensures s * h / 6.0 - s * s * r >= 0.0
    ensures (s * h / 3.0 - s * s / 2.0 + s * s * r) + (s * h / 6.0 - s * s * r) <= h * h / 8.0
  {
    AreaBound(h, s);
    WeightFactors(h, s, r);
    var area := s * (h - s);
    MulMono(area, 0.0, 2.0 * h - s);
    MulMono(area, 0.0, h + s);
    MulCancelLe(6.0 * h, 0.0, s * h / 3.0 - s * s / 2.0 + s * s * r);
    MulCancelLe(6.0 * h, 0.0, s * h / 6.0 - s * s * r);
  }

  lemma WeightFactors(h: real, s: real, r: real)
    requires 6.0 * h * r == s
    ensures 6.0 * h * (s * h / 3.0 - s * s / 2.0 + s * s * r) == s * (h - s) * (2.0 * h - s)
    ensures 6.0 * h * (s * h / 6.0 - s * s * r) == s * (h - s) * (h + s)
  {
    assert 6.0 * h * (s * s * r) == s * s * (6.0 * h * r) == s * s * s;
  }

  // How far a piece with end curvatures m0, m1 leaves its chord at distance s.
  function Bend(m0: real, m1: real, h: real, s: real, k: real): real {
    s * (-((m1 / 6.0 + m0 / 3.0) * h) + s * (0.5 * m0 + s * k))
  }

  lemma BendAsWeights(m0: real, m1: real, h: real, s: real, k: real, r: real)
    requires h > 0.0 && 6.0 * h * r == s && 6.0 * h * k == m1 - m0
    ensures Bend(m0, m1, h, s, k)
         == -((s * h / 3.0 - s * s / 2.0 + s * s * r) * m0 + (s * h / 6.0 - s * s * r) * m1)
  {
    assert 6.0 * h * (s * k) == s * (m1 - m0) == 6.0 * h * (r * (m1 - m0));
    MulCancel(6.0 * h, s * k, r * (m1 - m0));
    assert s * s * (s * k) == s * s * (r * (m1 - m0));
  }

  lemma BendWeights(m0: real, m1: real, h: real, s: real, k: real) returns (a: real, b: real)
    requires h > 0.0 && 0.0 <= s <= h && 6.0 * h * k == m1 - m0
    ensures a >= 0.0 && b >= 0.0 && a + b <= h * h / 8.0
    ensures Bend(m0, m1, h, s, k) == -(a * m0 + b * m1)
  {
    hide Bend;
    var r := s / (6.0 * h);
    DivMul(s, 6.0 * h);
    Weights(h, s, r);
    BendAsWeights(m0, m1, h, s, k, r);
    a, b := s * h / 3.0 - s * s / 2.0 + s * s * r, s * h / 6.0 - s * s * r;
  }

  lemma BendBound(m0: real, m1: real, h: real, s: real, k: real, bound: real)
    requires h > 0.0 && 0.0 <= s <= h && bound >= 0.0 && 6.0 * h * k == m1 - m0
    requires -bound <= m0 <= bound && -bound <= m1 <= bound
    ensures -(h * h / 8.0 * bound) <= Bend(m0, m1, h, s, k) <= h * h / 8.0 * bound
  {
    hide Bend;
    var a, b := BendWeights(m0, m1, h, s, k);
    WeightedBound(a, b, m0, m1, bound, h * h / 8.0);
  }

  lemma BeyondChord(t: seq<real>, y: seq<real>, m: seq<real>, i: int, s: real)
    requires Knots(t) && |t| == |y| == |m| && 0 <= i < |t| - 1 && Step(t, i) > 0.0
    ensures Pieces(t, y, m)[i].Value(s) - Chord(t, y, i, s)
         == Bend(m[i], m[i + 1], Step(t, i), s, (m[i + 1] - m[i]) / (6.0 * Step(t, i)))
  {
    hide Step;
    var h := Step(t, i);
    var d, g, q := (y[i + 1] - y[i]) / h, (m[i + 1] / 6.0 + m[i] / 3.0) * h,
                   s * (0.5 * m[i] + s * ((m[i + 1] - m[i]) / (6.0 * h)));
    assert s * (d - g + q) == s * d + s * (-g + q);
  }

  // A priori error bound: between two knots the curve leaves the chord by at
  // most h*h/8 times the stability bound of the data.
  lemma DeviationFromChord(t: seq<real>, y: seq<real>, m: seq<real>, bound: real, i: int, s: real)
    requires Knots(t) && |t| == |y| && SecondDerivatives(t, y, m) && bound >= 0.0
    requires Dominates(t, Jumps(t, y), bound)
    requires 0 <= i < |t| - 1 && 0.0 <= s <= Step(t, i) && Step(t, i) > 0.0
    ensures var slack := Step(t, i) * Step(t, i) / 8.0 * bound;
            -slack <= Pieces(t, y, m)[i].Value(s) - Chord(t, y, i, s) <= slack
  {
    Stability(t, Jumps(t, y), m, bound);
    BeyondChord(t, y, m, i, s);
    hide Step, Chord, Pieces, Bend;
    DivMul(m[i + 1] - m[i], 6.0 * Step(t, i));
    BendBound(m[i], m[i + 1], Step(t, i), s, (m[i + 1] - m[i]) / (6.0 * Step(t, i)), bound);
  }

  lemma AffineChords(t: seq<real>, y: seq<real>, p: real, q: real)
    requires Knots(t) && |t| == |y|
    requires forall i :: 0 <= i < |t| ==> y[i] == p + q * t[i]
    ensures forall i :: 0 <= i < |t| - 1 ==> Step(t, i) > 0.0 && (y[i + 1] - y[i]) / Step(t, i) == q
  {
    forall i | 0 <= i < |t| - 1
      ensures Step(t, i) > 0.0 && (y[i + 1] - y[i]) / Step(t, i) == q
    {
      assert y[i + 1] - y[i] == Step(t, i) * q;
      Quotient(Step(t, i), q);
    }
  }

  lemma StraightPiece(t: seq<real>, y: seq<real>, m: seq<real>, q: real, i: int, s: real)
    requires Knots(t) && |t| == |y| == |m| && 0 <= i < |t| - 1 && m[i] == m[i + 1] == 0.0
    requires Step(t, i) > 0.0 && (y[i + 1] - y[i]) / Step(t, i) == q
    ensures Pieces(t, y, m)[i].Value(s) == y[i] + s * q
  {
    assert Pieces(t, y, m)[i] == Cubic(y[i], q, 0.0, 0.0);
  }

  // Affine data has no curvature anywhere and the curve reproduces it.
  lemma AffineReproduced(t: seq<real>, y: seq<real>, m: seq<real>, p: real, q: real)
    requires Knots(t) && |t| == |y| && SecondDerivatives(t, y, m)
    requires forall i :: 0 <= i < |t| ==> y[i] == p + q * t[i]
    ensures forall i :: 0 <= i < |t| ==> m[i] == 0.0
    ensures forall i, s :: 0 <= i < |t| - 1 ==> Pieces(t, y, m)[i].Value(s) == p + q * (t[i] + s)
  {
    var zero := seq(|t|, i => 0.0);
    AffineChords(t, y, p, q);
    forall i | 0 < i < |t| - 1
      ensures RowValue(t, zero, i) == Jumps(t, y)[i]
    {
      assert Step(t, i) > 0.0 && Step(t, i - 1) > 0.0;
    }
    UniqueSolution(t, Jumps(t, y), m, zero);
    forall i, s | 0 <= i < |t| - 1
      ensures Pieces(t, y, m)[i].Value(s) == p + q * (t[i] + s)
    {
      assert Step(t, i) > 0.0;
      StraightPiece(t, y, m, q, i, s);
      assert q * (t[i] + s) == q * t[i] + s * q;
    }
  }

  // ---- Points of the curve, table ends included ---------------------------

  // v is the curve's value at x: clamped outside the table, else the value of
  // whichever piece covers x.
  ghost predicate OnCurve(t: seq<real>, y: seq<real>, ps: seq<Cubic>, x: real, v: real)
    requires |t| == |y| == |ps| + 1 && |t| >= 2
  {
    && (x < t[0] ==> v == y[0])
    && (x > t[|t| - 1] ==> v == y[|t| - 1])
    && (forall i :: 0 <= i < |ps| && t[i] <= x <= t[i + 1] ==> v == ps[i].Value(x - t[i]))
  }

  lemma CoveringInterval(t: seq<real>, x: real) returns (i: int)
    requires |t| >= 2 && t[0] <= x <= t[|t| - 1]
    ensures 0 <= i < |t| - 1 && t[i] <= x <= t[i + 1]
  {
    i := 0;
    while x > t[i + 1]
      invariant 0 <= i < |t| - 1 && t[i] <= x
      decreases |t| - i
    {
      i := i + 1;
    }
  }

  // A spline has one value at every abscissa.
  lemma OnCurveUnique(t: seq<real>, y: seq<real>, ps: seq<Cubic>, x: real, v: real, v': real)
    requires |t| == |y| == |ps| + 1 && |t| >= 2
    requires OnCurve(t, y, ps, x, v) && OnCurve(t, y, ps, x, v')
    ensures v == v'
  {
    if t[0] <= x <= t[|t| - 1] {
      var i := CoveringInterval(t, x);
    }
  }

  // On affine data the evaluated curve is the line itself, over the whole table.
  lemma AffineOnCurve(t: seq<real>, y: seq<real>, m: seq<real>, p: real, q: real, x: real, v: real)
    requires Knots(t) && |t| == |y| && SecondDerivatives(t, y, m)
    requires forall i :: 0 <= i < |t| ==> y[i] == p + q * t[i]
    requires t[0] <= x <= t[|t| - 1] && OnCurve(t, y, Pieces(t, y, m), x, v)
    ensures v == p + q * x
  {
    AffineReproduced(t, y, m, p, q);
    var i := CoveringInterval(t, x);
    assert Pieces(t, y, m)[i].Value(x - t[i]) == p + q * (t[i] + (x - t[i]));
  }
}
