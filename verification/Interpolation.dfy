// Interpolating nodal values at a point with inverse-distance weights.
module Interpolation {
  import opened RealArith

  datatype Point = Point(x: real, y: real, z: real) {
    function SizeSq(): (r: real)
      ensures r >= 0.0
    {
      x * x + y * y + z * z
    }

    function Minus(q: Point): Point {
      Point(x - q.x, y - q.y, z - q.z)
    }
  }

  // What squared length and difference are: additive over the axes, the square
  // on each axis, and zero for the difference of equal points only.
  lemma LengthLaws(p: Point, d: real)
    ensures Point(d, 0.0, 0.0).SizeSq() == Point(0.0, d, 0.0).SizeSq() == Point(0.0, 0.0, d).SizeSq() == d * d
    ensures p.SizeSq() == Point(p.x, 0.0, 0.0).SizeSq() + Point(0.0, p.y, 0.0).SizeSq() + Point(0.0, 0.0, p.z).SizeSq()
    ensures p.SizeSq() == 0.0 <==> p == Point(0.0, 0.0, 0.0)
  {
    if p != Point(0.0, 0.0, 0.0) {
      PositiveLength(p);
    }
  }

  lemma PositiveLength(p: Point)
    requires p != Point(0.0, 0.0, 0.0)
    ensures p.SizeSq() > 0.0
  {
    SquarePositive(p.x, p.x * p.x);
    SquarePositive(p.y, p.y * p.y);
    SquarePositive(p.z, p.z * p.z);
    assert p.SizeSq() == p.x * p.x + p.y * p.y + p.z * p.z;
    hide Point.SizeSq;
    PositiveSum(p.x * p.x, p.y * p.y, p.z * p.z, p.SizeSq());
  }

  lemma PositiveSum(a: real, b: real, c: real, sum: real)
    requires a >= 0.0 && b >= 0.0 && c >= 0.0 && (a != 0.0 || b != 0.0 || c != 0.0) && sum == a + b + c
    ensures sum > 0.0
  {
  }

  lemma SquarePositive(a: real, s: real)
    requires s == a * a
    ensures s >= 0.0 && (a != 0.0 ==> s != 0.0)
  {
    if a != 0.0 {
      DivMul(1.0, a);
      SquareTimesInverse(a, 1.0 / a, s);
    }
  }

  lemma SquareTimesInverse(a: real, i: real, s: real)
    requires s == a * a && a * i == 1.0
    ensures s * i == a
  {
    assert s * i == a * (a * i);
  }

  lemma DifferenceLaws(p: Point, q: Point)
    ensures p.Minus(q).SizeSq() == 0.0 <==> p == q
    ensures p.Minus(q).SizeSq() == q.Minus(p).SizeSq()
    ensures forall v: Point :: p.Minus(q) == v <==> p == Point(q.x + v.x, q.y + v.y, q.z + v.z)
  {
    hide Point.SizeSq;
    LengthLaws(p.Minus(q), 0.0);
    OppositeLength(p.Minus(q), q.Minus(p));
  }

  lemma OppositeLength(v: Point, w: Point)
    requires w == Point(-v.x, -v.y, -v.z)
    ensures v.SizeSq() == w.SizeSq()
  {
    OppositeSquare(v.x, w.x);
    OppositeSquare(v.y, w.y);
    OppositeSquare(v.z, w.z);
  }

  lemma OppositeSquare(a: real, b: real)
    requires b == -a
    ensures a * a == b * b
  {
  }

  // A node of the element with its value.
  datatype Sample = Sample(point: Point, value: real)

  function Weight(p: Point, node: Point): (w: real)
    ensures w > 0.0
  {
    1.0 / (p.Minus(node).SizeSq() + 0.000001)
  }

  // Weights are in inverse proportion to the squared distances, softened by 1e-6.
  lemma InverseDistance(p: Point, a: Point, b: Point)
    ensures Weight(p, a) * (p.Minus(a).SizeSq() + 0.000001) == Weight(p, b) * (p.Minus(b).SizeSq() + 0.000001)
    ensures p.Minus(a).SizeSq() < p.Minus(b).SizeSq() ==> Weight(p, a) > Weight(p, b)
    ensures p == a ==> Weight(p, a) == 1000000.0
  {
    hide Point.SizeSq, Point.Minus;
    var da, db := p.Minus(a).SizeSq() + 0.000001, p.Minus(b).SizeSq() + 0.000001;
    Reciprocals(da, db);
    if p == a {
      SelfDistance(p);
    }
  }

  lemma SelfDistance(p: Point)
    ensures p.Minus(p).SizeSq() == 0.0
  {
  }

  lemma Reciprocals(x: real, y: real)
    requires x > 0.0 && y > 0.0
    ensures 1.0 / x * x == 1.0 == 1.0 / y * y
    ensures x < y ==> 1.0 / x > 1.0 / y
  {
    DivMul(1.0, x);
    DivMul(1.0, y);
    if x < y && 1.0 / x <= 1.0 / y {
      MulMono(x, 1.0 / x, 1.0 / y);
      MulStrict(1.0 / y, x, y);
    }
  }

  function SumOfWeights(nodes: seq<Sample>, p: Point): (r: real)
    ensures nodes == [] ==> r == 0.0
    ensures nodes != [] ==> r > 0.0
  {
    if nodes == [] then 0.0
    else SumOfWeights(nodes[..|nodes| - 1], p) + Weight(p, nodes[|nodes| - 1].point)
  }

  function WeightedSum(nodes: seq<Sample>, p: Point): real {
    if nodes == [] then 0.0
    else WeightedSum(nodes[..|nodes| - 1], p) + Weight(p, nodes[|nodes| - 1].point) * nodes[|nodes| - 1].value
  }

  ghost function Mean(nodes: seq<Sample>, p: Point): (r: real)
    requires nodes != []
    ensures r * SumOfWeights(nodes, p) == WeightedSum(nodes, p)
  {
    DivMul(WeightedSum(nodes, p), SumOfWeights(nodes, p));
    WeightedSum(nodes, p) / SumOfWeights(nodes, p)
  }

  ghost function Samples(points: seq<Point>, value: seq<real>): (s: seq<Sample>)
    requires |points| == |value|
  {
    seq(|points|, i requires 0 <= i < |points| => Sample(points[i], value[i]))
  }

  ghost predicate AtLeast(value: seq<real>, low: real) {
    forall i :: 0 <= i < |value| ==> low <= value[i]
  }

  ghost predicate AtMost(value: seq<real>, high: real) {
    forall i :: 0 <= i < |value| ==> value[i] <= high
  }

  // The result lies between any bounds on the nodal values.
  method Interpolate(points: seq<Point>, value: seq<real>, p: Point) returns (r: real)
    requires |points| == |value| > 0
    ensures r == Mean(Samples(points, value), p)
    ensures forall low :: AtLeast(value, low) ==> low <= r
    ensures forall high :: AtMost(value, high) ==> r <= high
    ensures |points| == 2 ==>
      var (a, b) := (points[0], points[1]);
      var d := (p.x - a.x) * (p.x - a.x) + (p.y - a.y) * (p.y - a.y) + (p.z - a.z) * (p.z - a.z) + 0.000001;
      var e := (p.x - b.x) * (p.x - b.x) + (p.y - b.y) * (p.y - b.y) + (p.z - b.z) * (p.z - b.z) + 0.000001;
      r * (d + e) == value[0] * e + value[1] * d
  {
    hide Weight, WeightedSum, SumOfWeights, Mean;
    ghost var nodes := Samples(points, value);
    NoNodes(p);
    assert nodes[..0] == [];
    var v := 0.0;
    var w := new real[|points|];
    for n := 0 to |points|
      invariant v == WeightedSum(nodes[..n], p)
      invariant forall i :: 0 <= i < n ==> w[i] == Weight(p, points[i])
    {
      OneMoreNode(nodes, n, p);
      w[n] := Weight(p, points[n]);
      v := v + w[n] * value[n];
    }
    assert nodes[..|points|] == nodes;
    var total := 0.0;
    for n := 0 to |points|
      invariant total == SumOfWeights(nodes[..n], p) && v == WeightedSum(nodes, p)
      invariant forall i :: 0 <= i < |points| ==> w[i] == Weight(p, points[i])
    {
      OneMoreNode(nodes, n, p);
      total := total + w[n];
    }
    r := v / total;
    MeanIsQuotient(nodes, p);
    if |points| == 2 {
      TwoInCoordinates(points, value, p, r);
    }
    forall low | AtLeast(value, low)
      ensures low <= r
    {
      MeanAbove(nodes, p, low);
    }
    forall high | AtMost(value, high)
      ensures r <= high
    {
      MeanBelow(nodes, p, high);
    }
  }

  // Squared distance in coordinates, plus 1e-6.
  function Softened(p: Point, q: Point): real {
    (p.x - q.x) * (p.x - q.x) + (p.y - q.y) * (p.y - q.y) + (p.z - q.z) * (p.z - q.z) + 0.000001
  }

  lemma WeightOfSoftened(p: Point, q: Point)
    ensures Weight(p, q) > 0.0 && Weight(p, q) * Softened(p, q) == 1.0
  {
    DivMul(1.0, Softened(p, q));
  }

  // With two nodes each value counts in proportion to the distance of the other.
  lemma MeanOfTwo(a: Sample, b: Sample, p: Point)
    ensures Mean([a, b], p) * (Softened(p, a.point) + Softened(p, b.point))
         == a.value * Softened(p, b.point) + b.value * Softened(p, a.point)
  {
    var nodes := [a, b];
    NoNodes(p);
    OneMoreNode(nodes, 0, p);
    OneMoreNode(nodes, 1, p);
    assert nodes[..0] == [] && nodes[..1] == [a] && nodes[..2] == nodes;
    WeightOfSoftened(p, a.point);
    WeightOfSoftened(p, b.point);
    hide Weight, WeightedSum, SumOfWeights, Softened, Mean;
    TwoWeights(Weight(p, a.point), Weight(p, b.point), Softened(p, a.point), Softened(p, b.point),
               a.value, b.value, Mean(nodes, p));
  }

  lemma TwoInCoordinates(points: seq<Point>, value: seq<real>, p: Point, r: real)
    requires |points| == |value| == 2 && r == Mean(Samples(points, value), p)
    ensures var (a, b) := (points[0], points[1]);
      var d := (p.x - a.x) * (p.x - a.x) + (p.y - a.y) * (p.y - a.y) + (p.z - a.z) * (p.z - a.z) + 0.000001;
      var e := (p.x - b.x) * (p.x - b.x) + (p.y - b.y) * (p.y - b.y) + (p.z - b.z) * (p.z - b.z) + 0.000001;
      r * (d + e) == value[0] * e + value[1] * d
  {
    hide Mean;
    var nodes := Samples(points, value);
    assert nodes == [nodes[0], nodes[1]];
    MeanOfTwo(nodes[0], nodes[1], p);
  }

  lemma TwoWeights(v: real, w: real, d: real, e: real, x: real, y: real, m: real)
    requires v * d == 1.0 && w * e == 1.0 && m * (v + w) == v * x + w * y
    ensures m * (d + e) == x * e + y * d
  {
    var de := d * e;
    assert v * de == e && w * de == d;
    assert m * (v + w) * de == m * (e + d);
    assert (v * x + w * y) * de == x * e + y * d;
  }

  lemma NoNodes(p: Point)
    ensures SumOfWeights([], p) == 0.0 && WeightedSum([], p) == 0.0
  {
  }

  lemma OneMoreNode(nodes: seq<Sample>, n: nat, p: Point)
    requires n < |nodes|
    ensures var w := Weight(p, nodes[n].point);
      SumOfWeights(nodes[..n + 1], p) == SumOfWeights(nodes[..n], p) + w
      && WeightedSum(nodes[..n + 1], p) == WeightedSum(nodes[..n], p) + w * nodes[n].value
  {
    hide Weight;
    assert nodes[..n + 1][..n] == nodes[..n];
  }

  lemma MeanIsQuotient(nodes: seq<Sample>, p: Point)
    requires nodes != []
    ensures SumOfWeights(nodes, p) > 0.0 && Mean(nodes, p) == WeightedSum(nodes, p) / SumOfWeights(nodes, p)
  {
    hide WeightedSum, SumOfWeights;
  }

  // ---- Between the extremes ----------------------------------------------------------

  lemma BoundOneMore(bound: real, weights: real, sum: real, w: real, v: real)
    requires w >= 0.0
    ensures bound * weights <= sum && bound <= v ==> bound * (weights + w) <= sum + w * v
    ensures sum <= bound * weights && v <= bound ==> sum + w * v <= bound * (weights + w)
  {
    if bound <= v {
      MulMono(w, bound, v);
    }
    if v <= bound {
      MulMono(w, v, bound);
    }
  }

  lemma {:induction false} SumAbove(nodes: seq<Sample>, p: Point, low: real)
    requires forall i :: 0 <= i < |nodes| ==> low <= nodes[i].value
    ensures low * SumOfWeights(nodes, p) <= WeightedSum(nodes, p)
  {
    if nodes == [] {
      NoNodes(p);
    } else {
      var n := |nodes| - 1;
      SumAbove(nodes[..n], p, low);
      OneMoreNode(nodes, n, p);
      hide WeightedSum, SumOfWeights, Weight;
      assert nodes[..n + 1] == nodes;
      BoundOneMore(low, SumOfWeights(nodes[..n], p), WeightedSum(nodes[..n], p),
                   Weight(p, nodes[n].point), nodes[n].value);
    }
  }

  lemma {:induction false} SumBelow(nodes: seq<Sample>, p: Point, high: real)
    requires forall i :: 0 <= i < |nodes| ==> nodes[i].value <= high
    ensures WeightedSum(nodes, p) <= high * SumOfWeights(nodes, p)
  {
    if nodes == [] {
      NoNodes(p);
    } else {
      var n := |nodes| - 1;
      SumBelow(nodes[..n], p, high);
      OneMoreNode(nodes, n, p);
      hide WeightedSum, SumOfWeights, Weight;
      assert nodes[..n + 1] == nodes;
      BoundOneMore(high, SumOfWeights(nodes[..n], p), WeightedSum(nodes[..n], p),
                   Weight(p, nodes[n].point), nodes[n].value);
    }
  }

  lemma MeanAbove(nodes: seq<Sample>, p: Point, low: real)
    requires nodes != [] && forall i :: 0 <= i < |nodes| ==> low <= nodes[i].value
    ensures low <= Mean(nodes, p)
  {
    SumAbove(nodes, p, low);
    hide WeightedSum, SumOfWeights, Mean;
    MulCancelLe(SumOfWeights(nodes, p), low, Mean(nodes, p));
  }

  lemma MeanBelow(nodes: seq<Sample>, p: Point, high: real)
    requires nodes != [] && forall i :: 0 <= i < |nodes| ==> nodes[i].value <= high
    ensures Mean(nodes, p) <= high
  {
    SumBelow(nodes, p, high);
    hide WeightedSum, SumOfWeights, Mean;
    MulCancelLe(SumOfWeights(nodes, p), Mean(nodes, p), high);
  }

  // Constant data is reproduced exactly, at every point.
  lemma ConstantReproduced(nodes: seq<Sample>, p: Point, c: real)
    requires nodes != [] && forall i :: 0 <= i < |nodes| ==> nodes[i].value == c
    ensures Mean(nodes, p) == c
  {
    MeanAbove(nodes, p, c);
    MeanBelow(nodes, p, c);
  }

  // ---- Node order --------------------------------------------------------------------

  // Taking out any one node takes its terms out of both sums.
  lemma {:induction false} TakeOut(nodes: seq<Sample>, p: Point, k: int)
    requires 0 <= k < |nodes|
    ensures var rest, w := nodes[..k] + nodes[k + 1..], Weight(p, nodes[k].point);
      SumOfWeights(nodes, p) == SumOfWeights(rest, p) + w
      && WeightedSum(nodes, p) == WeightedSum(rest, p) + w * nodes[k].value
  {
    hide Weight, SumOfWeights, WeightedSum;
    var n, rest := |nodes| - 1, nodes[..k] + nodes[k + 1..];
    OneMoreNode(nodes, n, p);
    assert nodes[..n + 1] == nodes;
    if k == n {
      assert rest == nodes[..n];
    } else {
      var front := nodes[..n];
      assert front[k] == nodes[k];
      TakeOut(front, p, k);
      assert |rest| == n && rest[..n - 1 + 1] == rest;
      assert rest[..n - 1] == front[..k] + front[k + 1..];
      assert rest[n - 1] == nodes[n];
      OneMoreNode(rest, n - 1, p);
    }
  }

  lemma RemoveOne(a: seq<Sample>, b: seq<Sample>, k: int)
    requires multiset(a) == multiset(b) && a != [] && 0 <= k < |b| && b[k] == a[|a| - 1]
    ensures multiset(a[..|a| - 1]) == multiset(b[..k] + b[k + 1..])
  {
    var last := a[|a| - 1];
    assert a == a[..|a| - 1] + [last];
    assert b == b[..k] + [last] + b[k + 1..];
    assert multiset(a) == multiset(a[..|a| - 1]) + multiset{last};
    assert multiset(b) == multiset(b[..k] + b[k + 1..]) + multiset{last};
    assert multiset(a[..|a| - 1]) == multiset(a) - multiset{last};
    assert multiset(b[..k] + b[k + 1..]) == multiset(b) - multiset{last};
  }

  lemma {:induction false} SumsIgnoreOrder(a: seq<Sample>, b: seq<Sample>, p: Point)
    requires multiset(a) == multiset(b)
    ensures SumOfWeights(a, p) == SumOfWeights(b, p) && WeightedSum(a, p) == WeightedSum(b, p)
    decreases |a|
  {
    hide Weight, SumOfWeights, WeightedSum;
    assert |a| == |multiset(a)| == |multiset(b)| == |b|;
    if a == [] {
      assert b == [];
    } else {
      var last := a[|a| - 1];
      assert last in multiset(b);
      var k :| 0 <= k < |b| && b[k] == last;
      var front, rest := a[..|a| - 1], b[..k] + b[k + 1..];
      assert a[..|a| - 1] + a[|a|..] == front;
      TakeOut(a, p, |a| - 1);
      TakeOut(b, p, k);
      RemoveOne(a, b, k);
      SumsIgnoreOrder(front, rest, p);
    }
  }

  // The result does not depend on the order in which the nodes are listed.
  lemma MeanIgnoresOrder(a: seq<Sample>, b: seq<Sample>, p: Point)
    requires a != [] && multiset(a) == multiset(b)
    ensures b != [] && Mean(a, p) == Mean(b, p)
  {
    assert a[0] in multiset(b);
    SumsIgnoreOrder(a, b, p);
    hide WeightedSum, SumOfWeights;
  }

  // ---- Scaling and shifting the data ---------------------------------------------------

  lemma AffineOneMore(c: real, d: real, weights: real, sum: real, w: real, v: real)
    ensures c * sum + d * weights + w * (c * v + d) == c * (sum + w * v) + d * (weights + w)
  {
  }

  lemma {:induction false} SumOfAffine(nodes: seq<Sample>, image: seq<Sample>, p: Point, c: real, d: real)
    requires |nodes| == |image|
    requires forall i :: 0 <= i < |nodes| ==> image[i] == Sample(nodes[i].point, c * nodes[i].value + d)
    ensures SumOfWeights(image, p) == SumOfWeights(nodes, p)
    ensures WeightedSum(image, p) == c * WeightedSum(nodes, p) + d * SumOfWeights(nodes, p)
  {
    NoNodes(p);
    hide WeightedSum, SumOfWeights, Weight;
    if nodes == [] {
    } else {
      var n := |nodes| - 1;
      var w, v := Weight(p, nodes[n].point), nodes[n].value;
      SumOfAffine(nodes[..n], image[..n], p, c, d);
      OneMoreNode(nodes, n, p);
      OneMoreNode(image, n, p);
      assert nodes[..n + 1] == nodes && image[..n + 1] == image;
      AffineOneMore(c, d, SumOfWeights(nodes[..n], p), WeightedSum(nodes[..n], p), w, v);
    }
  }

  // Scaling and shifting the nodal values scales and shifts the result.
  lemma MeanOfAffine(nodes: seq<Sample>, image: seq<Sample>, p: Point, c: real, d: real)
    requires |nodes| == |image| > 0
    requires forall i :: 0 <= i < |nodes| ==> image[i] == Sample(nodes[i].point, c * nodes[i].value + d)
    ensures Mean(image, p) == c * Mean(nodes, p) + d
  {
    SumOfAffine(nodes, image, p, c, d);
    hide WeightedSum, SumOfWeights, Mean;
    MeanFromSums(nodes, image, p, c, d);
  }

  lemma MeanFromSums(nodes: seq<Sample>, image: seq<Sample>, p: Point, c: real, d: real)
    requires nodes != [] && image != [] && SumOfWeights(image, p) == SumOfWeights(nodes, p)
    requires WeightedSum(image, p) == c * WeightedSum(nodes, p) + d * SumOfWeights(nodes, p)
    ensures Mean(image, p) == c * Mean(nodes, p) + d
  {
    hide WeightedSum, SumOfWeights, Mean;
    AffineQuotient(SumOfWeights(nodes, p), Mean(nodes, p), Mean(image, p), c, d);
  }

  lemma AffineQuotient(total: real, m: real, m': real, c: real, d: real)
    requires total > 0.0 && m' * total == c * (m * total) + d * total
    ensures m' == c * m + d
  {
    assert total * (c * m + d) == c * (m * total) + d * total;
    MulCancel(total, m', c * m + d);
  }
}
