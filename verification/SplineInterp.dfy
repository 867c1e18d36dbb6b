// The refraction table of an optical material: sorted wavelengths with the real
// and imaginary refraction index, interpolated by natural cubic splines.
module SplineInterp {
  import opened RealArith
  import opened SplineSystem
  import opened SplineCurve
  import Tri = Tridiagonal

  // The plain search: the first interval whose right end lies beyond x, else the last one.
  function Scan(t: seq<real>, x: real, from: nat): (i: int)
    requires |t| >= 2 && from < |t|
    decreases |t| - from
  {
    if from == |t| - 1 then |t| - 2
    else if x < t[from + 1] then from
    else Scan(t, x, from + 1)
  }

  // Intervals left of a knot at or below x cannot be chosen.
  lemma {:induction false} ScanSkips(t: seq<real>, x: real, from: nat, k: nat)
    requires Knots(t) && from <= k < |t| && t[k] <= x
    ensures Scan(t, x, from) == Scan(t, x, k)
    decreases k - from
  {
    if from == k {
    } else {
      if from + 1 < k {
        KnotsIncrease(t, from + 1, k);
      }
      ScanSkips(t, x, from + 1, k);
    }
  }

  lemma OnlySolution(t: seq<real>, y: seq<real>, m: seq<real>)
    requires Knots(t) && |y| == |t| && SecondDerivatives(t, y, m)
    ensures forall n :: SecondDerivatives(t, y, n) ==> n == m
  {
    forall n | SecondDerivatives(t, y, n)
      ensures n == m
    {
      UniqueSolution(t, Jumps(t, y), n, m);
    }
  }

  // The matrix entries that rows 0..k-1 contribute are in place.
  ghost predicate FilledTo(a: seq<real>, s: Tri.System, k: int)
    requires s.Valid()
  {
    && |a| == 3 * s.Size()
    && (forall j :: 0 <= j < k && j < s.Size() ==> a[1 + j * 3] == s.diag[j])
    && (forall j :: 0 <= j < k && j < s.Size() - 1 ==> a[0 + (j + 1) * 3] == s.sup[j])
    && (forall j :: 0 < j < k && j < s.Size() ==> a[2 + (j - 1) * 3] == s.sub[j])
  }

  lemma FillRow(a: seq<real>, a': seq<real>, s: Tri.System, i: int)
    requires s.Valid() && 0 < i < s.Size() - 1 && FilledTo(a, s, i)
    requires a' == a[2 + (i - 1) * 3 := s.sub[i]][1 + i * 3 := s.diag[i]][0 + (i + 1) * 3 := s.sup[i]]
    ensures FilledTo(a', s, i + 1)
  {
  }

  lemma FillLastRow(a: seq<real>, a': seq<real>, s: Tri.System, n: int)
    requires s.Valid() && s.Size() == n >= 2 && FilledTo(a, s, n - 1)
    requires a' == a[2 + (n - 2) * 3 := s.sub[n - 1]][1 + (n - 1) * 3 := s.diag[n - 1]]
    ensures Tri.Packed(a', s, 0)
  {
  }

  class RefractionSplineInterp {
    var w: seq<real>
    var n: seq<real>
    var k: seq<real>
    var npp: seq<real>
    var kpp: seq<real>

    ghost predicate Valid()
      reads this
    {
      |n| == |k| == |w|
    }

    // The second derivatives belong to the table as it stands.
    ghost predicate Built()
      reads this
    {
      Valid() && Knots(w) && SecondDerivatives(w, n, npp) && SecondDerivatives(w, k, kpp)
    }

    constructor ()
      ensures Valid() && w == []
    {
      w, n, k, npp, kpp := [], [], [], [], [];
    }

    method AddNkSorted(wavelength: real, re: real, im: real)
      requires Valid()
      modifies this
      ensures Valid() && w == old(w) + [wavelength] && n == old(n) + [re] && k == old(k) + [im]
      ensures npp == old(npp) && kpp == old(kpp)
    {
      w, n, k := w + [wavelength], n + [re], k + [im];
    }

    // Prepares the table.  The curves that Nk evaluates afterwards are the
    // natural cubic splines through the two columns.
    method Build()
      requires Valid() && Knots(w)
      modifies this
      ensures Built() && w == old(w) && n == old(n) && k == old(k)
      ensures NaturalSpline(w, n, Pieces(w, n, npp)) && NaturalSpline(w, k, Pieces(w, k, kpp))
    {
      npp := BuildTable(w, n);
      kpp := BuildTable(w, k);
      CurveIsNaturalSpline(w, n, npp);
      CurveIsNaturalSpline(w, k, kpp);
    }

    // The refraction index: each column's natural cubic spline, whichever way
    // that spline was obtained, cut off below 0.
    method Nk(wavelength: real) returns (re: real, im: real)
      requires Built()
      ensures forall ps, v :: NaturalSpline(w, n, ps) && OnCurve(w, n, ps, wavelength, v) ==> re == Max(0.0, v)
      ensures forall ps, v :: NaturalSpline(w, k, ps) && OnCurve(w, k, ps, wavelength, v) ==> im == Max(0.0, v)
      ensures exists v :: OnCurve(w, n, Pieces(w, n, npp), wavelength, v) && re == Max(0.0, v)
      ensures exists v :: OnCurve(w, k, Pieces(w, k, kpp), wavelength, v) && im == Max(0.0, v)
    {
      var a := Eval(wavelength, w, n, npp);
      var b := Eval(wavelength, w, k, kpp);
      re, im := Max(0.0, a), Max(0.0, b);
      ValueOfEverySpline(w, n, npp, wavelength, a);
      ValueOfEverySpline(w, k, kpp, wavelength, b);
    }

    // Second derivatives of the natural spline through (t, y): the one vector
    // that satisfies the two end rows and every interior row.
    static method BuildTable(t: seq<real>, y: seq<real>) returns (ypp: seq<real>)
      requires Knots(t) && |y| == |t|
      ensures SecondDerivatives(t, y, ypp)
      ensures forall m :: SecondDerivatives(t, y, m) ==> m == ypp
    {
      var size := |t|;
      ghost var s := SystemOf(t, y);
      EntriesOfSystem(t, y);
      var a, b := Assemble(t, y, s);
      if size == 2 {
        ypp := [0.0, 0.0];
      } else {
        var x := Copy(b);
        PivotsNonzero(t, y);
        Tri.Eliminate(a, x, s);
        Tri.BackSubstitute(a, x, s);
        ypp := x[..];
        SystemMeaning(t, y, ypp);
      }
      OnlySolution(t, y, ypp);
    }

    // ypp starts out as a copy of the right-hand side.
    static method Copy(b: array<real>) returns (x: array<real>)
      ensures fresh(x) && x[..] == b[..]
    {
      x := new real[b.Length];
      for i := 0 to b.Length
        invariant x[..i] == b[..i]
      {
        x[i] := b[i];
      }
    }

    // Fills the packed matrix and the right-hand side.
    static method Assemble(t: seq<real>, y: seq<real>, ghost s: Tri.System) returns (a: array<real>, b: array<real>)
      requires Knots(t) && |y| == |t| && Entries(t, y, s)
      ensures fresh(a) && fresh(b) && a != b
      ensures Tri.Packed(a[..], s, 0) && b[..] == s.rhs
    {
      var size := |t|;
      a := new real[3 * size](_ => 0.0);
      b := new real[size](_ => 0.0);
      b[0] := 0.0;
      a[1 + 0 * 3] := 1.0;
      a[0 + 1 * 3] := 0.0;
      for i := 1 to size - 1
        invariant forall j :: 0 <= j < i ==> b[j] == s.rhs[j]
        invariant FilledTo(a[..], s, i)
      {
        AssembleRow(a, b, t, y, i, s);
      }
      ghost var a0 := a[..];
      b[size - 1] := 0.0;
      a[2 + (size - 2) * 3] := 0.0;
      a[1 + (size - 1) * 3] := 1.0;
      FillLastRow(a0, a[..], s, size);
      assert b[..] == s.rhs;
    }

    static method AssembleRow(a: array<real>, b: array<real>, t: seq<real>, y: seq<real>, i: int, ghost s: Tri.System)
      requires Knots(t) && |y| == |t| && Entries(t, y, s) && 0 < i < |t| - 1
      requires a != b && b.Length == |t| && FilledTo(a[..], s, i)
      modifies a, b
      ensures FilledTo(a[..], s, i + 1) && b[..] == old(b[..])[i := s.rhs[i]]
    {
      ghost var a0 := a[..];
      b[i] := SlopeDifference(t, y, i);
      a[2 + (i - 1) * 3] := (t[i] - t[i - 1]) / 6.0;
      a[1 + i * 3] := (t[i + 1] - t[i - 1]) / 3.0;
      a[0 + (i + 1) * 3] := (t[i + 1] - t[i]) / 6.0;
      FillRow(a0, a[..], s, i);
    }

    static method SlopeDifference(t: seq<real>, y: seq<real>, i: int) returns (d: real)
      requires Knots(t) && |y| == |t| && 0 < i < |t| - 1
      ensures d == Jumps(t, y)[i]
    {
      assert Step(t, i) > 0.0 && Step(t, i - 1) > 0.0;
      d := (y[i + 1] - y[i]) / (t[i + 1] - t[i]) - (y[i] - y[i - 1]) / (t[i] - t[i - 1]);
    }

    // The halving search that hands over to a short scan finds what the plain
    // scan over the whole table finds.
    static method FindInterval(tval: real, t: seq<real>) returns (ival: int)
      requires Knots(t) && t[0] <= tval <= t[|t| - 1]
      ensures ival == Scan(t, tval, 0)
      ensures 0 <= ival < |t| - 1 && t[ival] <= tval <= t[ival + 1]
    {
      var size := |t|;
      var begin, end := 0, size - 1;
      while end - begin > 2
        invariant 0 <= begin < end <= size - 1
        invariant t[begin] <= tval && (end == size - 1 || tval < t[end])
      {
        var mid := (begin + end) / 2;
        if tval < t[mid] {
          end := mid;
        } else {
          begin := mid;
        }
      }
      ScanSkips(t, tval, 0, begin);
      ival := size - 2;
      var i := begin;
      while i < end
        invariant begin <= i <= end && t[i] <= tval
        invariant ival == size - 2 && Scan(t, tval, 0) == Scan(t, tval, i)
      {
        if tval < t[i + 1] {
          ival := i;
          break;
        }
        i := i + 1;
      }
    }

    static method Eval(tval: real, t: seq<real>, y: seq<real>, ypp: seq<real>) returns (yval: real)
      requires Knots(t) && |t| == |y| == |ypp|
      ensures OnCurve(t, y, Pieces(t, y, ypp), tval, yval)
      ensures forall i :: 0 <= i < |t| && tval == t[i] ==> yval == y[i]
      ensures (tval < t[0] ==> yval == y[0]) && (tval > t[|t| - 1] ==> yval == y[|t| - 1])
    {
      if tval < t[0] {
        KnotOrder(t, tval);
        return y[0];
      }
      if tval > t[|t| - 1] {
        KnotOrder(t, tval);
        return y[|t| - 1];
      }
      var ival := FindInterval(tval, t);
      assert Step(t, ival) > 0.0;
      var dt := tval - t[ival];
      var h := t[ival + 1] - t[ival];
      yval := y[ival] + dt * ((y[ival + 1] - y[ival]) / h - (ypp[ival + 1] / 6.0 + ypp[ival] / 3.0) * h
                              + dt * (0.5 * ypp[ival] + dt * ((ypp[ival + 1] - ypp[ival]) / (6.0 * h))));
      PieceAsEvaluated(t, y, ypp, ival, dt, h, yval);
      CoveringPiecesAgree(t, y, ypp, tval, ival);
    }
  }

  lemma PieceAsEvaluated(t: seq<real>, y: seq<real>, m: seq<real>, i: int, dt: real, h: real, v: real)
    requires Knots(t) && |t| == |y| == |m| && 0 <= i < |t| - 1 && h == Step(t, i) != 0.0
    requires v == y[i] + dt * ((y[i + 1] - y[i]) / h - (m[i + 1] / 6.0 + m[i] / 3.0) * h
                               + dt * (0.5 * m[i] + dt * ((m[i + 1] - m[i]) / (6.0 * h))))
    ensures v == Pieces(t, y, m)[i].Value(dt)
  {
    hide Step;
    assert Pieces(t, y, m)[i] == Piece(t, y, m, i);
  }

  lemma KnotOrder(t: seq<real>, x: real)
    requires Knots(t)
    ensures x < t[0] ==> forall i :: 0 <= i < |t| ==> x < t[i]
    ensures x > t[|t| - 1] ==> forall i :: 0 <= i < |t| ==> x > t[i]
  {
    forall i | 0 <= i < |t|
      ensures t[0] <= t[i] <= t[|t| - 1]
    {
      if 0 < i {
        KnotsIncrease(t, 0, i);
      }
      if i < |t| - 1 {
        KnotsIncrease(t, i, |t| - 1);
      }
    }
  }

  // Whichever piece covers x gives the same value: two pieces meet only at a
  // knot, and there both pass through the datum.
  lemma CoveringPiecesAgree(t: seq<real>, y: seq<real>, m: seq<real>, x: real, i: int)
    requires Knots(t) && |t| == |y| == |m| && 0 <= i < |t| - 1 && t[i] <= x <= t[i + 1]
    ensures OnCurve(t, y, Pieces(t, y, m), x, Pieces(t, y, m)[i].Value(x - t[i]))
    ensures forall j :: 0 <= j < |t| && x == t[j] ==> Pieces(t, y, m)[i].Value(x - t[i]) == y[j]
  {
    var ps := Pieces(t, y, m);
    PieceInterpolates(t, y, m, i);
    KnotOrder(t, x);
    forall j | 0 <= j < |t| && x == t[j]
      ensures j == i || j == i + 1
    {
      if j < i {
        KnotsIncrease(t, j, i);
      }
      if i + 1 < j {
        KnotsIncrease(t, i + 1, j);
      }
    }
    forall j | 0 <= j < |ps| && t[j] <= x <= t[j + 1]
      ensures ps[j].Value(x - t[j]) == ps[i].Value(x - t[i])
    {
      PieceInterpolates(t, y, m, j);
      if j + 1 < i {
        KnotsIncrease(t, j + 1, i);
      }
      if i + 1 < j {
        KnotsIncrease(t, i + 1, j);
      }
    }
  }

  lemma ValueOfEverySpline(t: seq<real>, y: seq<real>, m: seq<real>, x: real, value: real)
    requires Knots(t) && |t| == |y| && SecondDerivatives(t, y, m) && OnCurve(t, y, Pieces(t, y, m), x, value)
    ensures forall ps, v :: NaturalSpline(t, y, ps) && OnCurve(t, y, ps, x, v) ==> v == value
  {
    forall ps, v | NaturalSpline(t, y, ps) && OnCurve(t, y, ps, x, v)
      ensures v == value
    {
      NaturalSplineUnique(t, y, m, ps);
      OnCurveUnique(t, y, ps, x, v, value);
    }
  }
}
