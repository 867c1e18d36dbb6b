// The tridiagonal system behind the refraction table's natural cubic spline:
// its rows, the size of its pivots, a stability bound and uniqueness.
module SplineSystem {
  import opened RealArith
  import Tri = Tridiagonal

  // Width of interval i of the table.
  function Step(t: seq<real>, i: int): real
    requires 0 <= i < |t| - 1
  {
    t[i + 1] - t[i]
  }

  // A usable table: two or more strictly increasing abscissae.
  ghost predicate Knots(t: seq<real>) {
    |t| >= 2 && forall i :: 0 <= i < |t| - 1 ==> Step(t, i) > 0.0
  }

  // Jump of the chord slope at interior knot i.
  function SlopeJump(t: seq<real>, y: seq<real>, i: int): real
    requires |t| == |y| && 0 < i < |t| - 1
    requires Step(t, i) != 0.0 && Step(t, i - 1) != 0.0
  {
    (y[i + 1] - y[i]) / Step(t, i) - (y[i] - y[i - 1]) / Step(t, i - 1)
  }

  // The right-hand side: slope jumps inside, 0 in the two natural end rows.
  ghost function Jumps(t: seq<real>, y: seq<real>): (b: seq<real>)
    requires Knots(t) && |y| == |t|
  {
    seq(|t|, i requires 0 <= i < |t| =>
      if 0 < i < |t| - 1 then
        assert Step(t, i - 1) > 0.0 && Step(t, i) > 0.0;
        SlopeJump(t, y, i)
      else 0.0)
  }

  // Interior row i applied to a vector of second derivatives.
  function RowValue(t: seq<real>, m: seq<real>, i: int): real
    requires |m| == |t| && 0 < i < |t| - 1
  {
    Step(t, i - 1) / 6.0 * m[i - 1] + (t[i + 1] - t[i - 1]) / 3.0 * m[i] + Step(t, i) / 6.0 * m[i + 1]
  }

  // m vanishes at both ends and satisfies every interior row with right-hand side b.
  ghost predicate Satisfies(t: seq<real>, b: seq<real>, m: seq<real>) {
    && |m| == |t| == |b| >= 2
    && m[0] == 0.0
    && m[|t| - 1] == 0.0
    && forall i :: 0 < i < |t| - 1 ==> RowValue(t, m, i) == b[i]
  }

  // m holds the second derivatives the table (t, y) calls for.
  ghost predicate SecondDerivatives(t: seq<real>, y: seq<real>, m: seq<real>)
    requires Knots(t) && |y| == |t|
  {
    Satisfies(t, Jumps(t, y), m)
  }

  lemma {:induction false} KnotsIncrease(t: seq<real>, i: int, j: int)
    requires Knots(t) && 0 <= i < j < |t|
    ensures t[i] < t[j]
    decreases j - i
  {
    assert Step(t, j - 1) > 0.0;
    if i == j - 1 {
    } else {
      KnotsIncrease(t, i, j - 1);
    }
  }

  // ---- Stability and uniqueness -------------------------------------------

  lemma RowTimesSix(hl: real, hr: real, p: real, c: real, q: real)
    ensures 6.0 * (hl / 6.0 * p + (hl + hr) / 3.0 * c + hr / 6.0 * q) == hl * p + 2.0 * ((hl + hr) * c) + hr * q
  {
    DivScale(hl, 6.0, p);
    DivScale(hl + hr, 3.0, c);
    DivScale(hr, 6.0, q);
  }

  lemma RowWeight(hl: real, hr: real, p: real, c: real, q: real)
    requires hl > 0.0 && hr > 0.0 && -c <= p && -c <= q
    ensures (hl + hr) * c <= hl * p + 2.0 * ((hl + hr) * c) + hr * q
  {
    MulMono(hl, -c, p);
    MulMono(hr, -c, q);
  }

  // Diagonal dominance of one row bounds its middle unknown when neither
  // neighbour reaches below its negative.
  lemma RowBound(hl: real, hr: real, p: real, c: real, q: real, b: real, bound: real)
    requires hl > 0.0 && hr > 0.0 && -c <= p && -c <= q
    requires hl / 6.0 * p + (hl + hr) / 3.0 * c + hr / 6.0 * q == b
    requires 6.0 * b <= (hl + hr) * bound
    ensures c <= bound
  {
    RowWeight(hl, hr, p, c, q);
    RowTimesSix(hl, hr, p, c, q);
    MulCancelLe(hl + hr, c, bound);
  }

  lemma NegatedRow(u: real, p: real, v: real, c: real, w: real, q: real)
    ensures u * -p + v * -c + w * -q == -(u * p + v * c + w * q)
  {
  }

  lemma LargestEntry(m: seq<real>) returns (k: nat)
    requires |m| > 0
    ensures k < |m| && forall i :: 0 <= i < |m| ==> Abs(m[i]) <= Abs(m[k])
  {
    k := 0;
    for i := 0 to |m|
      invariant k < |m|
      invariant forall j :: 0 <= j < i ==> Abs(m[j]) <= Abs(m[k])
    {
      if Abs(m[k]) < Abs(m[i]) {
        k := i;
      }
    }
  }

  // bound is at least every quotient 6|b[j]| / (h[j-1] + h[j]) over interior knots.
  ghost predicate Dominates(t: seq<real>, b: seq<real>, bound: real)
    requires |b| == |t|
  {
    forall j :: 0 < j < |t| - 1 ==>
      -((t[j + 1] - t[j - 1]) * bound) <= 6.0 * b[j] <= (t[j + 1] - t[j - 1]) * bound
  }

  // Every second derivative is bounded by the largest of those quotients.
  lemma Stability(t: seq<real>, b: seq<real>, m: seq<real>, bound: real)
    requires Knots(t) && Satisfies(t, b, m) && bound >= 0.0
    requires Dominates(t, b, bound)
    ensures forall i :: 0 <= i < |m| ==> -bound <= m[i] <= bound
  {
    var k := LargestEntry(m);
    if 0 < k < |t| - 1 {
      var hl, hr := Step(t, k - 1), Step(t, k);
      assert hl > 0.0 && hr > 0.0 && hl + hr == t[k + 1] - t[k - 1];
      assert RowValue(t, m, k) == b[k];
      assert Abs(m[k - 1]) <= Abs(m[k]) && Abs(m[k + 1]) <= Abs(m[k]);
      if m[k] >= 0.0 {
        RowBound(hl, hr, m[k - 1], m[k], m[k + 1], b[k], bound);
      } else {
        NegatedRow(hl / 6.0, m[k - 1], (hl + hr) / 3.0, m[k], hr / 6.0, m[k + 1]);
        RowBound(hl, hr, -m[k - 1], -m[k], -m[k + 1], -b[k], bound);
      }
    }
  }

  lemma RowIsLinear(u: real, u0: real, u1: real, v: real, v0: real, v1: real, w: real, w0: real, w1: real, f: real)
    ensures u * (u0 + f * u1) + v * (v0 + f * v1) + w * (w0 + f * w1)
         == (u * u0 + v * v0 + w * w0) + f * (u * u1 + v * v1 + w * w1)
  {
  }

  // A linear combination of solutions solves the combined system.
  lemma Superposition(t: seq<real>, b: seq<real>, m: seq<real>, c: seq<real>, n: seq<real>, f: real,
                      d: seq<real>, r: seq<real>)
    requires Satisfies(t, b, m) && Satisfies(t, c, n) && |d| == |r| == |t|
    requires forall i :: 0 <= i < |t| ==> d[i] == b[i] + f * c[i]
    requires forall i :: 0 <= i < |t| ==> r[i] == m[i] + f * n[i]
    ensures Satisfies(t, d, r)
  {
    forall i | 0 < i < |t| - 1
      ensures RowValue(t, r, i) == d[i]
    {
      assert RowValue(t, m, i) == b[i] && RowValue(t, n, i) == c[i];
      RowIsLinear(Step(t, i - 1) / 6.0, m[i - 1], n[i - 1], (t[i + 1] - t[i - 1]) / 3.0, m[i], n[i],
                  Step(t, i) / 6.0, m[i + 1], n[i + 1], f);
    }
  }

  // At most one vector satisfies the system.
  lemma UniqueSolution(t: seq<real>, b: seq<real>, m: seq<real>, n: seq<real>)
    requires Knots(t) && Satisfies(t, b, m) && Satisfies(t, b, n)
    ensures m == n
  {
    var zero := seq(|t|, i => 0.0);
    var diff := seq(|t|, i requires 0 <= i < |t| => m[i] - n[i]);
    Superposition(t, b, m, b, n, -1.0, zero, diff);
    Stability(t, zero, diff, 0.0);
    forall i | 0 <= i < |m|
      ensures m[i] == n[i]
    {
      assert -0.0 <= diff[i] <= 0.0;
    }
  }

  // ---- The system as the solver sees it -----------------------------------

  ghost function Below(t: seq<real>, i: int): real
    requires 0 <= i < |t|
  {
    if 0 < i < |t| - 1 then Step(t, i - 1) / 6.0 else 0.0
  }

  ghost function Diagonal(t: seq<real>, i: int): real
    requires 0 <= i < |t|
  {
    if 0 < i < |t| - 1 then (t[i + 1] - t[i - 1]) / 3.0 else 1.0
  }

  ghost function Above(t: seq<real>, i: int): real
    requires 0 <= i < |t|
  {
    if 0 < i < |t| - 1 then Step(t, i) / 6.0 else 0.0
  }

  ghost function SystemOf(t: seq<real>, y: seq<real>): (s: Tri.System)
    requires Knots(t) && |y| == |t|
    ensures s.Valid() && s.Size() == |t| && s.rhs == Jumps(t, y)
  {
    Tri.System(seq(|t|, i requires 0 <= i < |t| => Below(t, i)), seq(|t|, i requires 0 <= i < |t| => Diagonal(t, i)),
               seq(|t|, i requires 0 <= i < |t| => Above(t, i)), Jumps(t, y))
  }

  // The entries an assembled system must have: two natural ends and the interior rows.
  ghost predicate Entries(t: seq<real>, y: seq<real>, s: Tri.System)
    requires Knots(t) && |y| == |t|
  {
    && s.Valid() && s.Size() == |t|
    && s.diag[0] == 1.0 && s.sup[0] == 0.0
    && s.sub[|t| - 1] == 0.0 && s.diag[|t| - 1] == 1.0
    && s.rhs == Jumps(t, y)
    && (forall i :: 0 < i < |t| - 1 ==> s.sub[i] == Step(t, i - 1) / 6.0)
    && (forall i :: 0 < i < |t| - 1 ==> s.diag[i] == (t[i + 1] - t[i - 1]) / 3.0)
    && (forall i :: 0 < i < |t| - 1 ==> s.sup[i] == Step(t, i) / 6.0)
  }

  lemma EntriesOfSystem(t: seq<real>, y: seq<real>)
    requires Knots(t) && |y| == |t|
    ensures Entries(t, y, SystemOf(t, y))
  {
  }

  // The assembled matrix expresses the two natural ends and the interior rows.
  lemma SystemMeaning(t: seq<real>, y: seq<real>, m: seq<real>)
    requires Knots(t) && |y| == |t| == |m|
    ensures Tri.Solves(SystemOf(t, y), m) <==> SecondDerivatives(t, y, m)
  {
    var s := SystemOf(t, y);
    forall i | 0 < i < |t| - 1
      ensures Tri.Row(s, m, i) <==> RowValue(t, m, i) == Jumps(t, y)[i]
    {
    }
    assert Tri.Row(s, m, 0) <==> m[0] == 0.0;
    assert Tri.Row(s, m, |t| - 1) <==> m[|t| - 1] == 0.0;
  }

  // Eliminating one row above with a pivot over a third of the shared step hl
  // leaves more than a third of the next step hr.
  lemma PivotStep(hl: real, hr: real, p: real)
    requires hl > 0.0 && p > hl / 3.0
    ensures (hl + hr) / 3.0 - hl / 6.0 / p * (hl / 6.0) > hr / 3.0
  {
    var x := hl / 6.0 / p;
    DivMul(hl / 6.0, p);
    if x >= 0.5 {
      MulMono(p, 0.5, x);
    }
    MulStrict(hl / 6.0, x, 0.5);
  }

  lemma NextPivot(t: seq<real>, i: int, p: real)
    requires Knots(t) && 0 < i < |t| - 1 && p != 0.0
    requires i > 1 ==> p > Step(t, i - 1) / 3.0
    ensures Diagonal(t, i) - Below(t, i) / p * Above(t, i - 1) > Step(t, i) / 3.0 > 0.0
  {
    assert Step(t, i - 1) > 0.0 && Step(t, i) > 0.0;
    if i > 1 {
      PivotStep(Step(t, i - 1), Step(t, i), p);
    }
  }

  lemma PivotRecurrence(t: seq<real>, y: seq<real>, i: int)
    requires Knots(t) && |y| == |t| && 0 < i < |t| && Tri.Pivot(SystemOf(t, y), i - 1) != 0.0
    ensures Tri.Pivot(SystemOf(t, y), i)
         == Diagonal(t, i) - Below(t, i) / Tri.Pivot(SystemOf(t, y), i - 1) * Above(t, i - 1)
  {
    hide Step, Below, Above, Diagonal;
    var s := SystemOf(t, y);
    assert Tri.Multiplier(s, i) == s.sub[i] / Tri.Pivot(s, i - 1);
  }

  // Elimination never divides by zero: interior pivots stay above a third of
  // the next step, the first and the last are 1, whatever the table's size.
  lemma {:induction false} PivotBound(t: seq<real>, y: seq<real>, i: int)
    requires Knots(t) && |y| == |t| && 0 <= i < |t|
    ensures 0 < i < |t| - 1 ==> Tri.Pivot(SystemOf(t, y), i) > Step(t, i) / 3.0 > 0.0
    ensures i == 0 || i == |t| - 1 ==> Tri.Pivot(SystemOf(t, y), i) == 1.0
    decreases i
  {
    hide Step;
    if i == 0 {
    } else {
      PivotBound(t, y, i - 1);
      PivotRecurrence(t, y, i);
      assert Step(t, i - 1) > 0.0;
      if i < |t| - 1 {
        NextPivot(t, i, Tri.Pivot(SystemOf(t, y), i - 1));
      }
    }
  }

  lemma PivotsNonzero(t: seq<real>, y: seq<real>)
    requires Knots(t) && |y| == |t|
    ensures Tri.Regular(SystemOf(t, y))
  {
    forall i | 0 <= i < |t|
      ensures Tri.Pivot(SystemOf(t, y), i) != 0.0
    {
      PivotBound(t, y, i);
    }
  }
}
