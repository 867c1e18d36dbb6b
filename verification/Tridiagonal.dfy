// Tridiagonal linear systems: what elimination without row exchanges and back
// substitution do to the solution set.
module Tridiagonal {
  import opened RealArith

  // Row i reads sub[i]*m[i-1] + diag[i]*m[i] + sup[i]*m[i+1] == rhs[i].
  // sub[0] and sup[n-1] are not part of any row.
  datatype System = System(sub: seq<real>, diag: seq<real>, sup: seq<real>, rhs: seq<real>) {
    predicate Valid() {
      |diag| > 0 && |sub| == |sup| == |rhs| == |diag|
    }

    function Size(): nat {
      |diag|
    }
  }

  // The part of row i right of the diagonal.
  function Right(s: System, m: seq<real>, i: int): real
    requires s.Valid() && |m| == s.Size() && 0 <= i < s.Size()
  {
    if i < s.Size() - 1 then s.sup[i] * m[i + 1] else 0.0
  }

  ghost predicate Row(s: System, m: seq<real>, i: int)
    requires s.Valid() && |m| == s.Size() && 0 <= i < s.Size()
  {
    (if 0 < i then s.sub[i] * m[i - 1] else 0.0) + s.diag[i] * m[i] + Right(s, m, i) == s.rhs[i]
  }

  ghost predicate Solves(s: System, m: seq<real>)
    requires s.Valid()
  {
    |m| == s.Size() && forall i :: 0 <= i < s.Size() ==> Row(s, m, i)
  }

  // What row i-1 is multiplied by before it is subtracted from row i.
  ghost function Multiplier(s: System, i: int): real
    requires s.Valid() && 0 < i < s.Size()
    decreases i, 0
  {
    var p := Pivot(s, i - 1);
    if p == 0.0 then 0.0 else s.sub[i] / p
  }

  // Diagonal entry i after rows 1..i have been eliminated.
  ghost function Pivot(s: System, i: int): real
    requires s.Valid() && 0 <= i < s.Size()
    decreases i, 1
  {
    if i == 0 then s.diag[0] else s.diag[i] - Multiplier(s, i) * s.sup[i - 1]
  }

  // Right-hand side i after rows 1..i have been eliminated.
  ghost function Reduced(s: System, i: int): real
    requires s.Valid() && 0 <= i < s.Size()
    decreases i, 1
  {
    if i == 0 then s.rhs[0] else s.rhs[i] - Multiplier(s, i) * Reduced(s, i - 1)
  }

  ghost predicate Regular(s: System)
    requires s.Valid()
  {
    forall i :: 0 <= i < s.Size() ==> Pivot(s, i) != 0.0
  }

  // Row i of the upper bidiagonal system that elimination leaves behind.
  ghost predicate ReducedRow(s: System, m: seq<real>, i: int)
    requires s.Valid() && |m| == s.Size() && 0 <= i < s.Size()
  {
    Pivot(s, i) * m[i] + Right(s, m, i) == Reduced(s, i)
  }

  // Subtracting x times the row above does not change what a row says.
  lemma RowOperation(sub: real, diag: real, right: real, rhs: real,
                     p: real, sup: real, above: real, x: real, m0: real, m1: real)
    requires p * m0 + sup * m1 == above && x * p == sub
    ensures sub * m0 + diag * m1 + right == rhs
       <==> (diag - x * sup) * m1 + right == rhs - x * above
  {
    assert x * (p * m0) == sub * m0;
    assert x * above == x * (p * m0) + x * (sup * m1);
    assert (diag - x * sup) * m1 == diag * m1 - x * (sup * m1);
  }

  lemma RowsAgree(s: System, m: seq<real>, i: int)
    requires s.Valid() && |m| == s.Size() && 0 <= i < s.Size()
    requires i > 0 ==> Pivot(s, i - 1) != 0.0 && ReducedRow(s, m, i - 1)
    ensures Row(s, m, i) <==> ReducedRow(s, m, i)
  {
    if i > 0 {
      DivMul(s.sub[i], Pivot(s, i - 1));
      RowOperation(s.sub[i], s.diag[i], Right(s, m, i), s.rhs[i], Pivot(s, i - 1), s.sup[i - 1],
                   Reduced(s, i - 1), Multiplier(s, i), m[i - 1], m[i]);
    }
  }

  lemma {:induction false} RowsUpTo(s: System, m: seq<real>, k: int)
    requires s.Valid() && Regular(s) && |m| == s.Size() && 0 <= k <= s.Size()
    ensures (forall i :: 0 <= i < k ==> Row(s, m, i)) <==> (forall i :: 0 <= i < k ==> ReducedRow(s, m, i))
    decreases k
  {
    if k == 0 {
    } else {
      RowsUpTo(s, m, k - 1);
      if k == 1 || ReducedRow(s, m, k - 2) {
        RowsAgree(s, m, k - 1);
      }
    }
  }

  // Elimination keeps the solution set: as long as no pivot vanishes, the
  // reduced rows say exactly what the original rows say.
  lemma EliminationKeepsSolutions(s: System, m: seq<real>)
    requires s.Valid() && Regular(s) && |m| == s.Size()
    ensures Solves(s, m) <==> forall i :: 0 <= i < s.Size() ==> ReducedRow(s, m, i)
  {
    RowsUpTo(s, m, s.Size());
  }

  // ---- The packed 3-by-n store --------------------------------------------

  // Column i holds sup[i-1], diag[i] and sub[i+1], top to bottom.  The first k
  // diagonal entries have already been overwritten with pivots.
  ghost predicate Packed(a: seq<real>, s: System, k: int)
    requires s.Valid()
  {
    && |a| == 3 * s.Size()
    && (forall i :: 0 <= i < k && i < s.Size() ==> a[1 + i * 3] == Pivot(s, i))
    && (forall i :: 0 <= k <= i < s.Size() ==> a[1 + i * 3] == s.diag[i])
    && (forall i :: 0 <= i < s.Size() - 1 ==> a[0 + (i + 1) * 3] == s.sup[i])
    && (forall i :: 0 < i < s.Size() ==> a[2 + (i - 1) * 3] == s.sub[i])
  }

  // The first k entries of x are reduced right-hand sides, the others untouched.
  ghost predicate PartlyReduced(x: seq<real>, s: System, k: int)
    requires s.Valid()
  {
    && |x| == s.Size()
    && (forall i :: 0 <= i < k && i < s.Size() ==> x[i] == Reduced(s, i))
    && (forall i :: 0 <= k <= i < s.Size() ==> x[i] == s.rhs[i])
  }

  lemma PackedEntries(a: seq<real>, s: System, i: int)
    requires s.Valid() && Regular(s) && 0 < i < s.Size() && Packed(a, s, i)
    ensures a[1 + (i - 1) * 3] == Pivot(s, i - 1) != 0.0
    ensures a[2 + (i - 1) * 3] == s.sub[i] && a[1 + i * 3] == s.diag[i] && a[0 + i * 3] == s.sup[i - 1]
  {
    assert a[0 + (i - 1 + 1) * 3] == s.sup[i - 1];
  }

  // One row of the sweep: subtract the multiple of the row above that clears sub.
  method EliminateEntry(sub: real, pivot: real, diag: real, sup: real, rhs: real, above: real,
                        ghost s: System, ghost i: int)
    returns (d: real, r: real)
    requires s.Valid() && 0 < i < s.Size() && pivot == Pivot(s, i - 1) != 0.0
    requires sub == s.sub[i] && diag == s.diag[i] && sup == s.sup[i - 1]
    requires rhs == s.rhs[i] && above == Reduced(s, i - 1)
    ensures d == Pivot(s, i) && r == Reduced(s, i)
  {
    var xmult := sub / pivot;
    d := diag - xmult * sup;
    r := rhs - xmult * above;
  }

  lemma PackedStep(a: seq<real>, a': seq<real>, s: System, i: int)
    requires s.Valid() && 0 <= i < s.Size() && Packed(a, s, i)
    requires a' == a[1 + i * 3 := Pivot(s, i)]
    ensures Packed(a', s, i + 1)
  {
  }

  lemma ReducedStep(x: seq<real>, x': seq<real>, s: System, i: int)
    requires s.Valid() && 0 <= i < s.Size() && PartlyReduced(x, s, i)
    requires x' == x[i := Reduced(s, i)]
    ensures PartlyReduced(x', s, i + 1)
  {
  }

  // Forward sweep: overwrites the diagonal of the packed store with the pivots
  // and x with the reduced right-hand side.
  method Eliminate(a: array<real>, x: array<real>, ghost s: System)
    requires s.Valid() && Regular(s) && a != x
    requires Packed(a[..], s, 0) && x[..] == s.rhs
    modifies a, x
    ensures Packed(a[..], s, s.Size()) && PartlyReduced(x[..], s, s.Size())
  {
    PackedStep(a[..], a[..], s, 0);
    ReducedStep(x[..], x[..], s, 0);
    for i := 1 to x.Length
      invariant Packed(a[..], s, i) && PartlyReduced(x[..], s, i)
    {
      ghost var a0, x0 := a[..], x[..];
      PackedEntries(a0, s, i);
      a[1 + i * 3], x[i] := EliminateEntry(a[2 + (i - 1) * 3], a[1 + (i - 1) * 3], a[1 + i * 3], a[0 + i * 3],
                                           x[i], x[i - 1], s, i);
      PackedStep(a0, a[..], s, i);
      ReducedStep(x0, x[..], s, i);
    }
  }

  // ---- Back substitution ---------------------------------------------------

  ghost predicate SolvedFrom(s: System, x: seq<real>, k: int)
    requires s.Valid()
  {
    |x| == s.Size() && forall j :: 0 <= k <= j < s.Size() ==> ReducedRow(s, x, j)
  }

  lemma ReducedRowFrame(s: System, x: seq<real>, y: seq<real>, j: int)
    requires s.Valid() && |x| == |y| == s.Size() && 0 <= j < s.Size()
    requires x[j] == y[j] && (j < s.Size() - 1 ==> x[j + 1] == y[j + 1])
    ensures ReducedRow(s, x, j) <==> ReducedRow(s, y, j)
  {
    assert Right(s, x, j) == Right(s, y, j);
  }

  // One back-substitution: row i determines its unknown from the next one.
  method SolveEntry(rhs: real, sup: real, next: real, pivot: real, ghost s: System, ghost x: seq<real>, ghost i: int)
    returns (v: real)
    requires s.Valid() && 0 <= i < s.Size() - 1 && SolvedFrom(s, x, i + 1)
    requires pivot == Pivot(s, i) != 0.0 && rhs == Reduced(s, i) && sup == s.sup[i] && next == x[i + 1]
    ensures SolvedFrom(s, x[i := v], i)
  {
    v := (rhs - sup * next) / pivot;
    ghost var y := x[i := v];
    DivMul(rhs - sup * next, pivot);
    assert ReducedRow(s, y, i);
    forall j | i < j < s.Size()
      ensures ReducedRow(s, y, j)
    {
      assert ReducedRow(s, x, j);
      ReducedRowFrame(s, x, y, j);
    }
  }

  lemma SolveLastRow(s: System, x: seq<real>)
    requires s.Valid() && |x| == s.Size() && Pivot(s, s.Size() - 1) != 0.0
    requires x[s.Size() - 1] == Reduced(s, s.Size() - 1) / Pivot(s, s.Size() - 1)
    ensures SolvedFrom(s, x, s.Size() - 1)
  {
    DivMul(Reduced(s, s.Size() - 1), Pivot(s, s.Size() - 1));
  }

  // Solves the reduced rows from the last to the first, in place.
  method BackSubstitute(a: array<real>, x: array<real>, ghost s: System)
    requires s.Valid() && Regular(s) && a != x
    requires Packed(a[..], s, s.Size()) && PartlyReduced(x[..], s, s.Size())
    modifies x
    ensures Solves(s, x[..])
  {
    var size := x.Length;
    assert a[1 + (size - 1) * 3] == Pivot(s, size - 1) != 0.0;
    x[size - 1] := x[size - 1] / a[1 + (size - 1) * 3];
    SolveLastRow(s, x[..]);
    for i := size - 1 downto 0
      invariant forall j :: 0 <= j < i ==> x[j] == Reduced(s, j)
      invariant SolvedFrom(s, x[..], i)
    {
      ghost var before := x[..];
      assert a[1 + i * 3] == Pivot(s, i) != 0.0 && a[0 + (i + 1) * 3] == s.sup[i];
      x[i] := SolveEntry(x[i], a[0 + (i + 1) * 3], x[i + 1], a[1 + i * 3], s, before, i);
      assert x[..] == before[i := x[i]];
    }
    EliminationKeepsSolutions(s, x[..]);
  }
}
