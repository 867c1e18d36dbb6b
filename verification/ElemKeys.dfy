// Identifying an element by its nodes, however they are numbered: hash keys of
// sides, equality of elements, and the ElemKey class with its order and hash.
module ElemKeys {
  import opened SortedIds

  // ---- compute_key --------------------------------------------------------------

  // n % bp, for the big prime of the source
  function Residue(n: Id): (r: Id)
    ensures r < 65449
  {
    n % 65449
  }

  // n << bits in 32 bits
  function ShiftLeft(n: Id, factor: nat): Id {
    (n as int * factor % 0x1_0000_0000) as Id
  }

  // The key of nodes in increasing order: node i enters shifted by 5*i bits.  The
  // terms are too small for their sum to wrap around.
  function KeyOfSorted(s: seq<Id>): Id
    requires 2 <= |s| <= 4
  {
    var two := Residue(s[0]) + Residue(ShiftLeft(s[1], 32));
    var three := if |s| > 2 then two + Residue(ShiftLeft(s[2], 1024)) else two;
    if |s| > 3 then three + Residue(ShiftLeft(s[3], 32768)) else three
  }

  // The key as a number: each id is shifted by 5 bits more than the one before,
  // in 32 bits, and reduced modulo 65449.
  ghost predicate NumberOf(g: seq<Id>, key: Id)
    requires 2 <= |g| <= 4
  {
    key as int
      == g[0] as int % 65449 + g[1] as int * 32 % 0x1_0000_0000 % 65449
         + (if |g| > 2 then g[2] as int * 1024 % 0x1_0000_0000 % 65449 else 0)
         + (if |g| > 3 then g[3] as int * 32768 % 0x1_0000_0000 % 65449 else 0)
  }

  lemma KeyAsNumber(g: seq<Id>)
    requires 2 <= |g| <= 4
    ensures NumberOf(g, KeyOfSorted(g))
  {
    ShiftedResidue(g[1], 32);
    if |g| > 2 {
      ShiftedResidue(g[2], 1024);
    }
    if |g| > 3 {
      ShiftedResidue(g[3], 32768);
    }
    hide ShiftLeft;
  }

  lemma ShiftedResidue(n: Id, factor: nat)
    ensures Residue(ShiftLeft(n, factor)) as int == n as int * factor % 0x1_0000_0000 % 65449
  {
  }

  // The networks exchange local variables; ids are the nodes they hold.
  ghost predicate Three(ids: multiset<Id>, n0: Id, n1: Id, n2: Id) {
    ids == multiset{n0} + multiset{n1} + multiset{n2}
  }

  ghost predicate Four(ids: multiset<Id>, n0: Id, n1: Id, n2: Id, n3: Id) {
    ids == multiset{n0} + multiset{n1} + multiset{n2} + multiset{n3}
  }

  lemma Holds3(s: seq<Id>)
    requires |s| == 3
    ensures Three(multiset(s), s[0], s[1], s[2])
  {
    LastApart(s);
    LastApart(s[..2]);
    LastApart(s[..1]);
    assert s[..2][..1] == s[..1] && s[..1][..0] == [];
  }

  lemma Holds4(s: seq<Id>)
    requires |s| == 4
    ensures Four(multiset(s), s[0], s[1], s[2], s[3])
  {
    LastApart(s);
    Holds3(s[..3]);
  }

  lemma LastApart(s: seq<Id>)
    requires s != []
    ensures multiset(s) == multiset(s[..|s| - 1]) + multiset{s[|s| - 1]}
  {
    assert s == s[..|s| - 1] + [s[|s| - 1]];
  }

  lemma SumsCommute(a: multiset<Id>, b: multiset<Id>, c: multiset<Id>)
    ensures a + b + c == b + a + c == a + c + b == c + b + a
  {
  }

  lemma Exchanges3(ids: multiset<Id>, n0: Id, n1: Id, n2: Id)
    requires Three(ids, n0, n1, n2)
    ensures Three(ids, n1, n0, n2) && Three(ids, n0, n2, n1)
  {
    SumsCommute(multiset{n0}, multiset{n1}, multiset{n2});
  }

  lemma Exchanges4(ids: multiset<Id>, n0: Id, n1: Id, n2: Id, n3: Id)
    requires Four(ids, n0, n1, n2, n3)
    ensures Four(ids, n1, n0, n2, n3) && Four(ids, n0, n2, n1, n3) && Four(ids, n0, n1, n3, n2)
    ensures Four(ids, n2, n1, n0, n3) && Four(ids, n0, n3, n2, n1)
  {
    var m0, m1, m2, m3 := multiset{n0}, multiset{n1}, multiset{n2}, multiset{n3};
    SumsCommute(m0, m1, m2);
    SumsCommute(m0 + m1, m2, m3);
    SumsCommute(m0 + m3, m2, m1);
    SumsCommute(m0, m1, m3);
    SumsCommute(m0, m2, m1);
  }

  // The key of s is computed from its nodes in increasing order.
  lemma KeyOfThree(s: seq<Id>, g: seq<Id>)
    requires |s| == |g| == 3 && g[0] <= g[1] <= g[2] && Three(multiset(s), g[0], g[1], g[2])
    ensures KeyOfSorted(Sort(s)) == Residue(g[0]) + Residue(ShiftLeft(g[1], 32)) + Residue(ShiftLeft(g[2], 1024))
  {
    hide Sort, Residue, ShiftLeft;
    Holds3(g);
    SortIs(g, s);
  }

  lemma KeyOfFour(s: seq<Id>, g: seq<Id>)
    requires |s| == |g| == 4 && g[0] <= g[1] <= g[2] <= g[3] && Four(multiset(s), g[0], g[1], g[2], g[3])
    ensures KeyOfSorted(Sort(s))
         == Residue(g[0]) + Residue(ShiftLeft(g[1], 32)) + Residue(ShiftLeft(g[2], 1024))
            + Residue(ShiftLeft(g[3], 32768))
  {
    hide Sort, Residue, ShiftLeft;
    Holds4(g);
    SortIs(g, s);
  }

  method ComputeKey2(a: Id, b: Id) returns (key: Id)
    ensures key == KeyOfSorted(Sort([a, b]))
    ensures NumberOf(Sort([a, b]), key)
  {
    hide Sort, ShiftLeft, Residue, NumberOf;
    var n0, n1 := a, b;
    assert multiset([b, a]) == multiset([a, b]);
    if n0 > n1 { n0, n1 := n1, n0; }
    SortIs([n0, n1], [a, b]);
    KeyAsNumber([n0, n1]);
    key := Residue(n0) + Residue(ShiftLeft(n1, 32));
  }

  // The exchanges of the three-node network, in its order.
  method SortNodes3(a: Id, b: Id, c: Id, ghost ids: multiset<Id>) returns (n0: Id, n1: Id, n2: Id)
    requires a != b && b != c && a != c && Three(ids, a, b, c)
    ensures n0 < n1 < n2 && Three(ids, n0, n1, n2)
  {
    n0, n1, n2 := a, b, c;
    hide Three;
    Exchanges3(ids, n0, n1, n2);
    if n0 > n1 { n0, n1 := n1, n0; }
    Exchanges3(ids, n0, n1, n2);
    if n1 > n2 { n1, n2 := n2, n1; }
    Exchanges3(ids, n0, n1, n2);
    if n0 > n1 { n0, n1 := n1, n0; }
  }

  method ComputeKey3(a: Id, b: Id, c: Id) returns (key: Id)
    requires a != b && b != c && a != c
    ensures key == KeyOfSorted(Sort([a, b, c]))
    ensures NumberOf(Sort([a, b, c]), key)
  {
    hide Sort, ShiftLeft, Residue, KeyOfSorted, NumberOf, Three;
    ghost var s := [a, b, c];
    Holds3(s);
    var n0, n1, n2 := SortNodes3(a, b, c, multiset(s));
    KeyOfThree(s, [n0, n1, n2]);
    KeyAsNumber(Sort(s));
    key := Residue(n0) + Residue(ShiftLeft(n1, 32)) + Residue(ShiftLeft(n2, 1024));
  }

  // The exchanges of the four-node network, in its order.
  method SortNodes4(a: Id, b: Id, c: Id, d: Id, ghost ids: multiset<Id>)
    returns (n0: Id, n1: Id, n2: Id, n3: Id)
    requires a != b && a != c && a != d && b != c && b != d && c != d && Four(ids, a, b, c, d)
    ensures n0 < n1 < n2 < n3 && Four(ids, n0, n1, n2, n3)
  {
    n0, n1, n2, n3 := a, b, c, d;
    hide Four;
    Exchanges4(ids, n0, n1, n2, n3);
    if n0 > n1 { n0, n1 := n1, n0; }
    Exchanges4(ids, n0, n1, n2, n3);
    if n2 > n3 { n2, n3 := n3, n2; }
    Exchanges4(ids, n0, n1, n2, n3);
    if n0 > n2 { n0, n2 := n2, n0; }
    Exchanges4(ids, n0, n1, n2, n3);
    if n1 > n3 { n1, n3 := n3, n1; }
    Exchanges4(ids, n0, n1, n2, n3);
    if n1 > n2 { n1, n2 := n2, n1; }
  }

  method ComputeKey4(a: Id, b: Id, c: Id, d: Id) returns (key: Id)
    requires a != b && a != c && a != d && b != c && b != d && c != d
    ensures key == KeyOfSorted(Sort([a, b, c, d]))
    ensures NumberOf(Sort([a, b, c, d]), key)
  {
    hide Sort, ShiftLeft, Residue, KeyOfSorted, NumberOf, Four;
    ghost var s := [a, b, c, d];
    Holds4(s);
    var n0, n1, n2, n3 := SortNodes4(a, b, c, d, multiset(s));
    KeyOfFour(s, [n0, n1, n2, n3]);
    KeyAsNumber(Sort(s));
    key := Residue(n0) + Residue(ShiftLeft(n1, 32)) + Residue(ShiftLeft(n2, 1024)) + Residue(ShiftLeft(n3, 32768));
  }

  ghost predicate Distinct(nodes: seq<Id>) {
    forall n :: multiset(nodes)[n] <= 1
  }

  lemma DistinctApart(nodes: seq<Id>, i: int, j: int)
    requires Distinct(nodes) && 0 <= i < j < |nodes|
    ensures nodes[i] != nodes[j]
  {
    var before, after := nodes[..j], nodes[j..];
    assert nodes == before + after;
    assert before[i] in before && after[0] in after;
    assert multiset(nodes)[nodes[i]] == multiset(before)[nodes[i]] + multiset(after)[nodes[i]];
  }

  // The key of an edge, a triangle or a quadrilateral.
  method Key(nodes: seq<Id>) returns (key: Id)
    requires 2 <= |nodes| <= 4 && Distinct(nodes)
    ensures key == KeyOfSorted(Sort(nodes))
    ensures var g := Sort(nodes);
      key as int == g[0] as int % 65449 + g[1] as int * 32 % 0x1_0000_0000 % 65449
                    + (if |g| > 2 then g[2] as int * 1024 % 0x1_0000_0000 % 65449 else 0)
                    + (if |g| > 3 then g[3] as int * 32768 % 0x1_0000_0000 % 65449 else 0)
  {
    hide Sort, KeyOfSorted, Distinct;
    key := KeyByCount(nodes);
    KeyAsNumber(Sort(nodes));
  }

  method KeyByCount(nodes: seq<Id>) returns (key: Id)
    requires 2 <= |nodes| <= 4 && Distinct(nodes)
    ensures key == KeyOfSorted(Sort(nodes))
  {
    forall i, j | 0 <= i < j < |nodes|
      ensures nodes[i] != nodes[j]
    {
      DistinctApart(nodes, i, j);
    }
    hide Sort, KeyOfSorted, NumberOf, Distinct;
    if |nodes| == 2 {
      assert nodes == [nodes[0], nodes[1]];
      key := ComputeKey2(nodes[0], nodes[1]);
    } else if |nodes| == 3 {
      assert nodes == [nodes[0], nodes[1], nodes[2]];
      key := ComputeKey3(nodes[0], nodes[1], nodes[2]);
    } else {
      assert nodes == [nodes[0], nodes[1], nodes[2], nodes[3]];
      key := ComputeKey4(nodes[0], nodes[1], nodes[2], nodes[3]);
    }
  }

  // Edges between nodes with small ids have the same key exactly if n0 + 32 * n1
  // is the same for them.
  lemma SmallEdgeKeys(a: seq<Id>, b: seq<Id>)
    requires |a| == |b| == 2 && a[0] < a[1] < 2045 && b[0] < b[1] < 2045
    ensures KeyOfSorted(Sort(a)) == KeyOfSorted(Sort(b)) <==>
      a[0] as int + 32 * a[1] as int == b[0] as int + 32 * b[1] as int
  {
    SmallEdgeKey(a);
    SmallEdgeKey(b);
    hide KeyOfSorted, Sort;
  }

  lemma SmallEdgeKey(a: seq<Id>)
    requires |a| == 2 && a[0] < a[1] < 2045
    ensures KeyOfSorted(Sort(a)) as int == a[0] as int + 32 * a[1] as int
  {
    hide KeyOfSorted, Sort;
    SortIs(a, a);
    KeyAsNumber(a);
  }

  // Any function of the sorted nodes ignores the numbering, because a multiset
  // has one sorted arrangement; that compute_key is such a function is what the
  // contracts above say.
  lemma KeyOfAnyNumbering(a: seq<Id>, b: seq<Id>)
    requires 2 <= |a| <= 4 && multiset(a) == multiset(b)
    ensures |b| == |a| && KeyOfSorted(Sort(a)) == KeyOfSorted(Sort(b))
  {
    assert |a| == |multiset(a)| == |multiset(b)| == |b|;
    SortedUnique(Sort(a), Sort(b));
  }

  // Two elements on the same nodes get the same key from compute_key, however
  // each of them numbers the nodes.
  method KeysAgree(a: seq<Id>, b: seq<Id>) returns (keyA: Id, keyB: Id)
    requires 2 <= |a| <= 4 && Distinct(a) && multiset(a) == multiset(b)
    ensures keyA == keyB
  {
    hide Sort, KeyOfSorted;
    KeyOfAnyNumbering(a, b);
    keyA := Key(a);
    keyB := Key(b);
  }

  // ---- Elements and their keys -----------------------------------------------------

  // Elem::operator== on the node ids of two elements.
  method ElemsEqual(lhs: seq<Id>, rhs: seq<Id>) returns (equal: bool)
    ensures equal <==> multiset(lhs) == multiset(rhs)
  {
    if |lhs| != |rhs| {
      assert |multiset(lhs)| != |multiset(rhs)|;
      return false;
    }
    var lhsIds: seq<Id>, rhsIds: seq<Id> := [], [];
    for i := 0 to |lhs|
      invariant lhsIds == lhs[..i]
    {
      lhsIds := lhsIds + [lhs[i]];
    }
    for i := 0 to |rhs|
      invariant rhsIds == rhs[..i]
    {
      rhsIds := rhsIds + [rhs[i]];
    }
    lhsIds, rhsIds := Sort(lhsIds), Sort(rhsIds);
    assert lhs[..|lhs|] == lhs && rhs[..|rhs|] == rhs;
    if multiset(lhs) == multiset(rhs) {
      SortedUnique(lhsIds, rhsIds);
    }
    return lhsIds == rhsIds;
  }

  class ElemKey {
    var vertices: seq<Id>

    ghost predicate Valid()
      reads this
    {
      Sorted(vertices)
    }

    // From all nodes of an element.
    constructor FromElem(nodes: seq<Id>)
      ensures Valid() && vertices == Sort(nodes)
    {
      vertices := [];
      new;
      for n := 0 to |nodes|
        invariant vertices == nodes[..n]
      {
        vertices := vertices + [nodes[n]];
      }
      assert nodes[..|nodes|] == nodes;
      vertices := Sort(vertices);
    }

    constructor FromVertices(ids: seq<Id>)
      ensures Valid() && vertices == Sort(ids)
    {
      vertices := Sort(ids);
    }

    // From some nodes of an element, given by their local indices.
    constructor FromLocal(nodes: seq<Id>, localIds: seq<nat>)
      requires forall i :: 0 <= i < |localIds| ==> localIds[i] < |nodes|
      ensures Valid() && vertices == Sort(seq(|localIds|, i requires 0 <= i < |localIds| => nodes[localIds[i]]))
    {
      vertices := [];
      new;
      ghost var picked := seq(|localIds|, i requires 0 <= i < |localIds| => nodes[localIds[i]]);
      for n := 0 to |localIds|
        invariant vertices == picked[..n]
      {
        vertices := vertices + [nodes[localIds[n]]];
      }
      assert picked[..|localIds|] == picked;
      vertices := Sort(vertices);
    }
  }

  method Equal(a: ElemKey, b: ElemKey) returns (equal: bool)
    ensures equal <==> a.vertices == b.vertices
  {
    if |a.vertices| != |b.vertices| {
      return false;
    }
    for i := 0 to |a.vertices|
      invariant a.vertices[..i] == b.vertices[..i]
    {
      if a.vertices[i] != b.vertices[i] {
        return false;
      }
    }
    assert a.vertices == a.vertices[..|a.vertices|] == b.vertices[..|b.vertices|] == b.vertices;
    return true;
  }

  // Whole-element keys are equal exactly when operator== calls the elements equal.
  lemma EqualKeysMeanEqualElems(lhs: seq<Id>, rhs: seq<Id>)
    ensures Sort(lhs) == Sort(rhs) <==> multiset(lhs) == multiset(rhs)
  {
    if multiset(lhs) == multiset(rhs) {
      SortedUnique(Sort(lhs), Sort(rhs));
    }
  }

  // ---- Order -------------------------------------------------------------------------

  // Shorter first; among equally long ones the first difference decides.
  ghost predicate Precedes(a: seq<Id>, b: seq<Id>) {
    |a| < |b| || (|a| == |b| && exists k :: DiffersFirstAt(a, b, k) && a[k] < b[k])
  }

  ghost predicate DiffersFirstAt(a: seq<Id>, b: seq<Id>, k: int) {
    0 <= k < |a| && k < |b| && a[..k] == b[..k] && a[k] != b[k]
  }

  method Less(a: ElemKey, b: ElemKey) returns (less: bool)
    ensures less <==> Precedes(a.vertices, b.vertices)
    ensures |a.vertices| != |b.vertices| ==> (less <==> |a.vertices| < |b.vertices|)
    ensures |a.vertices| == |b.vertices| ==>
      forall k :: 0 <= k < |a.vertices| && a.vertices[..k] == b.vertices[..k] && a.vertices[k] != b.vertices[k] ==>
        (less <==> a.vertices[k] < b.vertices[k])
  {
    forall k | DiffersFirstAt(a.vertices, b.vertices, k)
      ensures forall j :: DiffersFirstAt(a.vertices, b.vertices, j) ==> j == k
    {
      FirstDifferenceUnique(a.vertices, b.vertices, k);
    }
    if |a.vertices| != |b.vertices| {
      return |a.vertices| < |b.vertices|;
    }
    for i := 0 to |a.vertices|
      invariant a.vertices[..i] == b.vertices[..i]
    {
      if a.vertices[i] != b.vertices[i] {
        assert DiffersFirstAt(a.vertices, b.vertices, i);
        FirstDifferenceUnique(a.vertices, b.vertices, i);
        return a.vertices[i] < b.vertices[i];
      }
    }
    assert a.vertices == a.vertices[..|a.vertices|] == b.vertices[..|b.vertices|] == b.vertices;
    return false;
  }

  lemma FirstDifferenceUnique(a: seq<Id>, b: seq<Id>, k: int)
    requires DiffersFirstAt(a, b, k)
    ensures forall j :: DiffersFirstAt(a, b, j) ==> j == k
  {
    forall j | DiffersFirstAt(a, b, j)
      ensures j == k
    {
      if j < k {
        PrefixAgrees(a, b, k, j);
      } else if k < j {
        PrefixAgrees(a, b, j, k);
      }
    }
  }

  lemma PrefixAgrees(a: seq<Id>, b: seq<Id>, k: int, j: int)
    requires 0 <= j < k <= |a| && k <= |b| && a[..k] == b[..k]
    ensures a[j] == b[j]
  {
    assert a[j] == a[..k][j] && b[j] == b[..k][j];
  }

  lemma {:induction false} FirstDifference(a: seq<Id>, b: seq<Id>) returns (k: int)
    requires |a| == |b| && a != b
    ensures DiffersFirstAt(a, b, k)
  {
    k := 0;
    while k < |a| && a[k] == b[k]
      invariant 0 <= k <= |a| && a[..k] == b[..k]
    {
      k := k + 1;
    }
    assert a == a[..|a|] && b == b[..|b|];
  }

  // The order is strict and total: irreflexive, asymmetric, and it leaves
  // exactly equal keys incomparable.
  lemma PrecedesTrichotomy(a: seq<Id>, b: seq<Id>)
    ensures !Precedes(a, a)
    ensures !(Precedes(a, b) && Precedes(b, a))
    ensures !Precedes(a, b) && !Precedes(b, a) <==> a == b
  {
    if |a| == |b| && a != b {
      var k := FirstDifference(a, b);
      FirstDifferenceUnique(a, b, k);
      FirstDifferenceUnique(b, a, k);
      assert DiffersFirstAt(b, a, k);
    }
  }

  lemma PrecedesTransitive(a: seq<Id>, b: seq<Id>, c: seq<Id>)
    requires Precedes(a, b) && Precedes(b, c)
    ensures Precedes(a, c)
  {
    if |a| == |b| == |c| {
      var j :| DiffersFirstAt(a, b, j) && a[j] < b[j];
      var k :| DiffersFirstAt(b, c, k) && b[k] < c[k];
      var m := if j < k then j else k;
      assert a[..m] == a[..j][..m] == b[..m] == b[..k][..m] == c[..m];
      if j < k {
        assert b[..k][j] == c[..k][j];
      } else if k < j {
        assert a[..j][k] == b[..j][k];
      }
      assert DiffersFirstAt(a, c, m);
    }
  }
}
