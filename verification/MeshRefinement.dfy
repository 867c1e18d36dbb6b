// Operations on a whole mesh: refining and coarsening single elements, and
// raising or lowering the p level of every active element.
module MeshRefinement {
  import opened ElemTree

  // ---- Levels are decided by the leaves ---------------------------------------

  ghost predicate Monotone(f: int -> int) {
    forall x, y :: x <= y ==> f(x) <= f(y)
  }

  // In a consistent mesh the p level of every element is the minimum over its
  // active descendants.
  lemma LevelIsLeafMinimum(e: Elem, M: set<Elem>)
    requires Tree(M) && Consistent(M) && e in M
    ensures forall d :: d in M && IsLeafBelow(d, e) ==> e.pLevel <= d.pLevel
    ensures exists d :: d in M && IsLeafBelow(d, e) && e.pLevel == d.pLevel
  {
    forall d | d in M && IsLeafBelow(d, e)
      ensures e.pLevel <= d.pLevel
    {
      LeafAboveMin(d, e, M, LevelsOf(M));
    }
    var low := LeafAtMin(e, M, LevelsOf(M));
  }

  // If the leaf levels of lv' are those of lv mapped by a monotone f, then so
  // are all levels.  With f the identity: ancestor levels are a function of the
  // leaf levels alone, whatever sequence of updates produced them.
  lemma LevelsFollowLeaves(M: set<Elem>, lv: Levels, lv': Levels, f: int -> int)
    requires Tree(M) && ConsistentLevels(M, lv) && ConsistentLevels(M, lv') && Monotone(f)
    requires forall d :: d in M && d.children == [] ==> lv'[d] == f(lv[d])
    ensures forall e :: e in M ==> lv'[e] == f(lv[e])
  {
    forall e | e in M
      ensures lv'[e] == f(lv[e])
    {
      var low := LeafAtMin(e, M, lv);
      var low' := LeafAtMin(e, M, lv');
      LeafAboveMin(low, e, M, lv');
      LeafAboveMin(low', e, M, lv);
    }
  }

  // ---- Setting the level of one active element ---------------------------------

  // A consistent mesh stays consistent exactly when the level can be stored
  // without disturbing the parent; no other leaf changes.
  method SetActiveLevel(e: Elem, p: nat, ghost M: set<Elem>)
    requires Tree(M) && e in M && e.Active()
    modifies e.ups`pLevel
    ensures Tree(M) && e.pLevel == p % 256
    ensures old(Consistent(M)) ==> (Consistent(M) <==> old(e.Fits(p)))
    ensures forall d :: d in M && d.children == [] && d != e ==> d.pLevel == old(d.pLevel)
  {
    hide Tree, Elem.HoldsMin;
    ProperAncestorsInner(e, M);
    e.SetPLevel(p, M);
    if old(e.Fits(p)) {
      LeafHoldsMin(e, LevelsOf(M));
    }
  }

  lemma ProperAncestorsInner(e: Elem, M: set<Elem>)
    requires Tree(M) && e in M && e.Active()
    ensures e in e.ups && e.ups <= M && e.children == [] && (e.parent != null ==> e.parent in M)
    ensures forall a :: a in e.ups && a != e ==> a.children != []
  {
    UpsInMesh(e, M);
    assert e.Placed(M);
    forall a | a in e.ups && a != e
      ensures a.children != []
    {
      var c := ThroughChild(e, a, M);
    }
  }

  lemma LeafHoldsMin(e: Elem, lv: Levels)
    requires e.children == []
    ensures e.HoldsMin(lv)
  {
  }

  // ---- Whole-mesh p refinement and p coarsening ---------------------------------

  // elems lists the active elements of M, each once.
  ghost predicate ActiveElements(elems: seq<Elem>, M: set<Elem>)
    reads M`children
  {
    && (forall i :: 0 <= i < |elems| ==> elems[i] in M && elems[i].children == [])
    && (forall d :: d in M && d.children == [] ==> d in elems)
    && (forall i, j :: 0 <= i < j < |elems| ==> elems[i] != elems[j])
  }

  // What an unsigned char keeps of a level.
  function Stored(level: nat): Byte {
    level % 256
  }

  lemma StoredNext(level: nat)
    ensures Stored(Stored(level) + 1) == Stored(level + 1) && (level < 256 ==> Stored(level) == level)
  {
    var q, r := level / 256, level % 256;
    if r == 255 {
      Remainder(level + 1, q + 1, 0);
    } else {
      Remainder(level + 1, q, r + 1);
    }
    Remainder(r + 1, if r == 255 then 1 else 0, if r == 255 then 0 else r + 1);
  }

  lemma Remainder(x: nat, q: nat, r: nat)
    requires x == 256 * q + r && r < 256
    ensures x % 256 == r
  {
  }

  // Every active element can be raised n times without wrapping around.
  ghost predicate Raisable(lv: Levels, n: nat, M: set<Elem>)
    reads M`children
  {
    forall d :: d in M && d.children == [] ==> d in lv && lv[d] + n < 256
  }

  // The active elements are n levels above lv, as far as they can be stored.
  ghost predicate RaisedBy(lv: Levels, n: nat, M: set<Elem>)
    reads M`children, M`pLevel
  {
    forall d :: d in M && d.children == [] ==> d in lv && lv[d] >= 0 && d.pLevel == Stored(lv[d] + n)
  }

  // Raises every active element n times.  The levels of the active elements wrap
  // around at 256; where none does, a consistent mesh stays consistent and every
  // element, active or not, ends up exactly n levels higher.
  method UniformlyPRefine(elems: seq<Elem>, n: nat, ghost M: set<Elem>)
    requires Tree(M) && ActiveElements(elems, M)
    modifies M`pLevel, M`pflag
    ensures Tree(M) && RaisedBy(old(LevelsOf(M)), n, M)
    ensures forall d :: d in M && d.children == [] ==> d.pLevel == (old(d.pLevel) + n) % 256
    ensures old(Consistent(M)) && Raisable(old(LevelsOf(M)), n, M) ==>
      Consistent(M) && forall e :: e in M ==> e.pLevel == old(e.pLevel) + n
    ensures forall e :: e in M ==> e.pflag == if n > 0 && e in elems then JustRefined else old(e.pflag)
  {
    ghost var lv := LevelsOf(M);
    ghost var fits := Consistent(M) && Raisable(lv, n, M);
    NotYetRaised(M);
    assert fits ==> ConsistentLevels(M, lv);
    hide Tree, Elem.HoldsMin, Consistent, ConsistentLevels, RaisedBy, Raisable, Stored;
    for rstep := 0 to n
      invariant Tree(M) && ActiveElements(elems, M) && RaisedBy(lv, rstep, M) && (fits ==> Consistent(M))
      invariant forall e :: e in M ==> e.pflag == if rstep > 0 && e in elems then JustRefined else old(e.pflag)
    {
      ghost var lv1 := LevelsOf(M);
      RaisableNext(M, lv, lv1, n, rstep);
      RaiseAll(elems, M);
      RaisedNext(M, lv, lv1, rstep);
    }
    if fits {
      AllRaised(M, lv, n);
    }
  }

  lemma NotYetRaised(M: set<Elem>)
    ensures RaisedBy(LevelsOf(M), 0, M)
  {
    hide Stored;
    forall d | d in M && d.children == []
      ensures d.pLevel == Stored(d.pLevel + 0)
    {
      StoredNext(d.pLevel);
    }
  }

  lemma RaisableNext(M: set<Elem>, lv: Levels, lv1: Levels, n: nat, rstep: nat)
    requires lv1 == LevelsOf(M) && RaisedBy(lv, rstep, M) && rstep < n
    ensures Raisable(lv, n, M) ==> Raisable(lv1, 1, M)
    ensures forall d :: d in M && d.children == [] ==>
      d in lv && d in lv1 && lv[d] >= 0 && lv1[d] == Stored(lv[d] + rstep)
  {
    hide Stored;
    forall d | d in M && d.children == []
      ensures lv[d] + n < 256 ==> lv1[d] + 1 < 256
    {
      StoredNext(lv[d] + rstep);
    }
  }

  lemma RaisedNext(M: set<Elem>, lv: Levels, lv1: Levels, rstep: nat)
    requires forall d :: d in M && d.children == [] ==> d in lv && d in lv1 && lv[d] >= 0
    requires forall d :: d in M && d.children == [] ==> lv1[d] == Stored(lv[d] + rstep)
    requires RaisedBy(lv1, 1, M)
    ensures RaisedBy(lv, rstep + 1, M)
  {
    hide Stored;
    forall d | d in M && d.children == []
      ensures d.pLevel == Stored(lv[d] + (rstep + 1))
    {
      StoredNext(lv[d] + rstep);
    }
  }

  lemma AllRaised(M: set<Elem>, lv: Levels, n: nat)
    requires Tree(M) && ConsistentLevels(M, lv) && Consistent(M) && Raisable(lv, n, M) && RaisedBy(lv, n, M)
    ensures forall e :: e in M ==> e.pLevel == lv[e] + n
  {
    hide Stored, Tree, Elem.HoldsMin;
    forall d | d in M && d.children == []
      ensures d.pLevel == lv[d] + n
    {
      StoredNext(lv[d] + n);
    }
    LevelsFollowLeaves(M, lv, LevelsOf(M), x => x + n);
  }

  method RaiseAll(elems: seq<Elem>, ghost M: set<Elem>)
    requires Tree(M) && ActiveElements(elems, M)
    modifies M`pLevel, M`pflag
    ensures Tree(M) && RaisedBy(old(LevelsOf(M)), 1, M)
    ensures old(Consistent(M)) && Raisable(old(LevelsOf(M)), 1, M) ==> Consistent(M)
    ensures forall e :: e in M ==> e.pflag == if e in elems then JustRefined else old(e.pflag)
  {
    ghost var fits := Consistent(M) && Raisable(LevelsOf(M), 1, M);
    assert fits ==> forall j :: 0 <= j < |elems| ==> elems[j].pLevel + 1 < 256;
    ghost var lv := LevelsOf(M);
    hide Tree, Elem.HoldsMin, Consistent, Raisable, Stored, RaisedBy;
    for i := 0 to |elems|
      invariant Tree(M) && (fits ==> Consistent(M))
      invariant forall j :: 0 <= j < i ==>
        elems[j].pLevel == Stored(old(elems[j].pLevel) + 1) && elems[j].pflag == JustRefined
      invariant forall j :: i <= j < |elems| ==> elems[j].pLevel == old(elems[j].pLevel)
      invariant forall e :: e in M && e !in elems ==> e.pflag == old(e.pflag)
    {
      RaiseOne(elems[i], M);
    }
    EachRaised(elems, M, lv);
  }

  lemma EachRaised(elems: seq<Elem>, M: set<Elem>, lv: Levels)
    requires ActiveElements(elems, M) && forall d :: d in M ==> d in lv
    requires forall j :: 0 <= j < |elems| ==> lv[elems[j]] >= 0 && elems[j].pLevel == Stored(lv[elems[j]] + 1)
    ensures RaisedBy(lv, 1, M)
  {
    hide Stored;
  }

  method RaiseOne(e: Elem, ghost M: set<Elem>)
    requires Tree(M) && e in M && e.children == []
    modifies M`pLevel, e`pflag
    ensures Tree(M) && (old(Consistent(M)) && old(e.pLevel) + 1 < 256 ==> Consistent(M))
    ensures e.pLevel == Stored(old(e.pLevel) + 1) && e.pflag == JustRefined
    ensures forall d :: d in M && d.children == [] && d != e ==> d.pLevel == old(d.pLevel)
  {
    hide Tree, Elem.HoldsMin, Consistent;
    LeafIsActive(e, M);
    SetActiveLevel(e, e.pLevel + 1, M);
    e.pflag := JustRefined;
  }

  // Lowers every active element n times, stopping at 0; every element of a
  // consistent mesh ends up n levels lower, or at 0.
  method UniformlyPCoarsen(elems: seq<Elem>, n: nat, ghost M: set<Elem>)
    requires Tree(M) && ActiveElements(elems, M)
    modifies M`pLevel, M`pflag
    ensures Tree(M) && (old(Consistent(M)) ==> Consistent(M))
    ensures forall d :: d in M && d.children == [] ==> d.pLevel == if old(d.pLevel) < n then 0 else old(d.pLevel) - n
    ensures old(Consistent(M)) ==>
      forall e :: e in M ==> e.pLevel == if old(e.pLevel) < n then 0 else old(e.pLevel) - n
    ensures forall e :: e in M ==>
      e.pflag == if n > 0 && e in elems && old(e.pLevel) > 0 then JustCoarsened else old(e.pflag)
  {
    hide Tree, Elem.HoldsMin;
    ghost var lv := LevelsOf(M);
    for rstep := 0 to n
      invariant Tree(M) && ActiveElements(elems, M) && (old(Consistent(M)) ==> Consistent(M))
      invariant forall d :: d in M && d.children == [] ==> d.pLevel == if lv[d] < rstep then 0 else lv[d] - rstep
      invariant forall e :: e in M ==>
        e.pflag == if rstep > 0 && e in elems && lv[e] > 0 then JustCoarsened else old(e.pflag)
    {
      LowerAll(elems, M);
    }
    if old(Consistent(M)) {
      LevelsFollowLeaves(M, lv, LevelsOf(M), x => if x < n then 0 else x - n);
    }
  }

  method LowerAll(elems: seq<Elem>, ghost M: set<Elem>)
    requires Tree(M) && ActiveElements(elems, M)
    modifies M`pLevel, M`pflag
    ensures Tree(M) && (old(Consistent(M)) ==> Consistent(M))
    ensures forall e :: e in M ==> e.pflag == if e in elems && old(e.pLevel) > 0 then JustCoarsened else old(e.pflag)
    ensures forall d :: d in M && d.children == [] ==> d.pLevel == if old(d.pLevel) > 0 then old(d.pLevel) - 1 else 0
  {
    hide Tree, Elem.HoldsMin, Consistent;
    for i := 0 to |elems|
      invariant Tree(M) && (old(Consistent(M)) ==> Consistent(M))
      invariant forall j :: 0 <= j < i ==>
        elems[j].pLevel == if old(elems[j].pLevel) > 0 then old(elems[j].pLevel) - 1 else 0
      invariant forall j :: 0 <= j < i ==>
        elems[j].pflag == if old(elems[j].pLevel) > 0 then JustCoarsened else old(elems[j].pflag)
      invariant forall j :: i <= j < |elems| ==>
        elems[j].pLevel == old(elems[j].pLevel) && elems[j].pflag == old(elems[j].pflag)
      invariant forall e :: e in M && e !in elems ==> e.pflag == old(e.pflag)
    {
      if elems[i].pLevel > 0 {
        LeafIsActive(elems[i], M);
        SetActiveLevel(elems[i], elems[i].pLevel - 1, M);
        elems[i].pflag := JustCoarsened;
      }
    }
  }

  lemma LeafIsActive(e: Elem, M: set<Elem>)
    requires Tree(M) && e in M && e.children == []
    ensures e.Active() && e.ups <= M
  {
    assert e.Placed(M);
    UpsInMesh(e, M);
  }

  // ---- New level-0 elements -----------------------------------------------------------

  // A new element without parent joins the mesh as a tree of its own.
  lemma AddRoot(e: Elem, M: set<Elem>)
    requires Tree(M) && e.Detached(M) && e.parent == null && e.children == [] && e.Active()
    ensures Tree(M + {e}) && (Consistent(M) ==> Consistent(M + {e}))
  {
    var M' := M + {e};
    forall x | x in M'
      ensures x.Placed(M') && (Consistent(M) ==> x.HoldsMin(LevelsOf(M')))
    {
      if x != e {
        assert x.Placed(M);
        assert Consistent(M) ==> x.HoldsMin(LevelsOf(M));
      }
    }
  }

  // ---- h refinement and h coarsening of one element -------------------------------

  // Gives an active element n children on its own p level and deactivates it.
  method RefineElem(e: Elem, n: nat, nSides: nat, ghost M: set<Elem>) returns (ghost M': set<Elem>)
    requires Tree(M) && e in M && e.Active() && e.rflag == Refine && n > 0
    modifies e`children, e`rflag, e`pflag
    ensures Tree(M') && (old(Consistent(M)) ==> Consistent(M')) && M' == M + (set k | k in e.children) && fresh(M' - M)
    ensures |e.children| == n && !e.Active() && e.rflag == Inactive && e.pflag == Inactive
    ensures forall i, j :: 0 <= i < j < n ==> e.children[i] != e.children[j]
    ensures forall k :: k in e.children ==>
      k.Active() && k.children == [] && k.parent == e && k.pLevel == e.pLevel && k.rflag == JustRefined
      && k.pflag == old(e.pflag) && k.subdomainId == e.subdomainId && k.processorId == e.processorId
      && k.neighbors == seq(nSides, _ => null)
  {
    hide Tree, Elem.HoldsMin, Elem.Placed, Elem.Detached;
    ActiveAlone(e, M);
    var kids: seq<Elem> := [];
    for c := 0 to n
      invariant |kids| == c && forall k :: k in kids ==> fresh(k) && NewChild(k, e, nSides, M, e.pflag)
      invariant forall i, j :: 0 <= i < j < c ==> kids[i] != kids[j]
      invariant Tree(M) && (old(Consistent(M)) ==> Consistent(M)) && e.children == [] && e.pflag == old(e.pflag)
    {
      var k := MakeChild(e, nSides, M);
      kids := kids + [k];
    }
    M' := Adopt(e, kids, nSides, M);
  }

  method MakeChild(e: Elem, nSides: nat, ghost M: set<Elem>) returns (k: Elem)
    requires Tree(M) && e in M
    ensures fresh(k) && NewChild(k, e, nSides, M, e.pflag)
  {
    hide Tree, Elem.HoldsMin, Elem.Placed;
    k := new Elem(nSides, e, M);
    ChildrenApart(e, M);
    k.rflag := JustRefined;
    k.SetPLevel(e.pLevel, M);
    k.pflag := e.pflag;
    k.subdomainId := e.subdomainId;
  }

  // Hangs the finished children under e.
  method Adopt(e: Elem, kids: seq<Elem>, ghost nSides: nat, ghost M: set<Elem>) returns (ghost M': set<Elem>)
    requires Tree(M) && e in M && e.children == [] && kids != []
    requires forall k :: k in kids ==> NewChild(k, e, nSides, M, e.pflag)
    modifies e`children, e`rflag, e`pflag
    ensures e.children == kids && e.rflag == Inactive && e.pflag == Inactive && M' == M + (set k | k in kids)
    ensures Tree(M') && (old(Consistent(M)) ==> Consistent(M'))
  {
    M' := M + (set k | k in kids);
    ghost var lv := LevelsOf(M);
    e.children := kids;
    e.rflag := Inactive;
    e.pflag := Inactive;
    forall x | x in M'
      ensures x.Placed(M') && (old(Consistent(M)) ==> x.HoldsMin(LevelsOf(M')))
    {
      if x in M {
        assert old(x.Placed(M));
        assert old(Consistent(M)) ==> old(x.HoldsMin(LevelsOf(M)));
        if x == e {
          assert kids[0] in kids;
        }
      }
    }
  }

  ghost predicate NewChild(k: Elem, e: Elem, nSides: nat, M: set<Elem>, pflag: RefinementState)
    reads k, e`pLevel, e`subdomainId, e`processorId, M`ups, M`depth
  {
    && k.Detached(M) && k.parent == e && k.children == [] && k.rflag == JustRefined && k.pLevel == e.pLevel
    && k.pflag == pflag && k.subdomainId == e.subdomainId && k.processorId == e.processorId
    && k.neighbors == seq(nSides, _ => null)
  }

  lemma ActiveAlone(e: Elem, M: set<Elem>)
    requires Tree(M) && e in M && e.Active()
    ensures e.children == []
  {
    assert e.Placed(M);
  }

  // Reactivates an element whose active children are all to be coarsened away.
  // The level it takes is the largest of theirs; the children leave the mesh.
  method CoarsenElem(e: Elem, ghost M: set<Elem>) returns (ghost M': set<Elem>)
    requires Tree(M) && e in M && e.rflag == CoarsenInactive
    requires forall k :: k in e.children ==> k.rflag == Coarsen
    modifies e`children, e`rflag, e.children`rflag, M`pLevel
    ensures M' == M - (set k | k in old(e.children)) && e in M'
    ensures Tree(M') && (old(Consistent(M)) ==> Consistent(M')) && e.rflag == DoNothing
    ensures forall k :: k in old(e.children) ==> old(k.pLevel) <= e.pLevel && k.rflag == Inactive
    ensures exists k :: k in old(e.children) && e.pLevel == old(k.pLevel)
    ensures forall d :: d in M' && d.children == [] && d != e ==> d.pLevel == old(d.pLevel)
  {
    hide Tree, Elem.HoldsMin, Elem.Placed, Consistent, HoldBut, Closed;
    M' := M - (set k | k in e.children);
    ChildrenLeave(e, M, M');
    var parentPLevel := TakeDownChildren(e.children);
    DropChildren(e, M, M');
    LeafIsActive(e, M');
    SetActiveLevel(e, parentPLevel, M');
  }

  lemma ChildrenLeave(e: Elem, M: set<Elem>, M': set<Elem>)
    requires Tree(M) && e in M && !e.Active() && M' == M - (set k | k in e.children)
    requires forall k :: k in e.children ==> k.rflag == Coarsen
    ensures e in M' && e.children != [] && Closed(M', e) && (forall k :: k in e.children ==> k in M)
    ensures Consistent(M) ==> HoldBut(e, M')
  {
    ChildrenApart(e, M);
    assert e.Placed(M);
    forall x | x in M'
      ensures ClosedAt(x, M', e) && (Consistent(M) && x != e ==> x.HoldsMin(LevelsOf(M')))
    {
      assert x.Placed(M) && (Consistent(M) ==> x.HoldsMin(LevelsOf(M)));
      assert x.parent != null ==> x.parent.Placed(M);
    }
  }

  // The minimum holds in M' except perhaps at e.
  ghost predicate HoldBut(e: Elem, M': set<Elem>)
    reads M'`children, M'`pLevel
  {
    forall x {:trigger x.HoldsMin(LevelsOf(M'))} :: x in M' && x != e ==> x.HoldsMin(LevelsOf(M'))
  }

  // x is placed in the remaining mesh except that e still holds its children.
  ghost predicate ClosedAt(x: Elem, M': set<Elem>, e: Elem)
    reads x`parent, x`children, x`rflag, x`ups, x`depth, M'`parent, M'`children, M'`ups, M'`depth
  {
    && (x.parent == null ==> x.ups == {x} && x.depth == 0)
    && (x.parent != null ==>
          x.parent in M' && x.ups == {x} + x.parent.ups && x.depth == x.parent.depth + 1 && x.parent != e
          && x in x.parent.children)
    && (x != e ==> (forall c :: c in x.children ==> c in M' && c.parent == x) && (x.Active() <==> x.children == []))
  }

  ghost predicate Closed(M': set<Elem>, e: Elem)
    reads M'`parent, M'`children, M'`rflag, M'`ups, M'`depth
  {
    forall x {:trigger ClosedAt(x, M', e)} :: x in M' ==> ClosedAt(x, M', e)
  }

  method TakeDownChildren(kids: seq<Elem>) returns (m: nat)
    requires kids != []
    modifies kids`rflag
    ensures forall k :: k in kids ==> k.pLevel <= m && k.rflag == Inactive
    ensures exists k :: k in kids && k.pLevel == m
  {
    m := 0;
    for c := 0 to |kids|
      invariant forall i :: 0 <= i < c ==> kids[i].pLevel <= m && kids[i].rflag == Inactive
      invariant (c == 0 && m == 0) || exists i :: 0 <= i < c && kids[i].pLevel == m
    {
      kids[c].rflag := Inactive;
      if kids[c].pLevel > m {
        m := kids[c].pLevel;
      }
      assert c == 0 ==> kids[0].pLevel == m;
    }
  }

  method DropChildren(e: Elem, ghost M: set<Elem>, ghost M': set<Elem>)
    requires e in M' && Closed(M', e)
    modifies e`children, e`rflag
    ensures e.children == [] && e.rflag == DoNothing && Tree(M')
    ensures old(HoldBut(e, M')) ==> Consistent(M')
  {
    e.children := [];
    e.rflag := DoNothing;
    forall x | x in M'
      ensures x.Placed(M') && (old(HoldBut(e, M')) ==> x.HoldsMin(LevelsOf(M')))
    {
      assert old(ClosedAt(x, M', e));
    }
  }

  lemma TwoChildren(e: Elem, a: Elem, b: Elem, M: set<Elem>)
    requires Consistent(M) && e in M && e.children == [a, b]
    ensures e.pLevel == if a.pLevel < b.pLevel then a.pLevel else b.pLevel
  {
    assert e.HoldsMin(LevelsOf(M));
    assert a in e.children && b in e.children;
  }

  method TwoLeafMesh() returns (ghost M: set<Elem>, root: Elem, a: Elem, b: Elem)
    ensures fresh(M) && Tree(M) && Consistent(M) && root in M && a in M && b in M
    ensures root.children == [a, b] && a != b && a.Active() && b.Active() && a.parent == root && b.parent == root
    ensures a.children == b.children == [] && a.pLevel == b.pLevel == 0 && a.ups <= M && b.ups <= M
  {
    M := {};
    root := new Elem(3, null, M);
    M := {root};
    assert root.Placed(M) && root.HoldsMin(LevelsOf(M));
    root.rflag := Refine;
    assert root.Placed(M) && root.HoldsMin(LevelsOf(M));
    hide Tree, Elem.Placed, Elem.HoldsMin;
    M := RefineElem(root, 2, 3, M);
    a, b := root.children[0], root.children[1];
    LeafIsActive(a, M);
    LeafIsActive(b, M);
  }

  // A level that does not fit in an unsigned char can break the minimum: in a
  // consistent mesh, one of two sibling leaves, one level above its parent, asks
  // for p and drops below the parent.  `before` holds the levels until then.
  method OverflowExample() returns (p: nat, ghost M: set<Elem>, ghost leaf: Elem, ghost before: Levels)
    ensures p == 256 && Tree(M) && leaf in M && leaf.Active() && ConsistentLevels(M, before)
    ensures leaf.pLevel == p % 256 && leaf.parent != null && leaf.parent in M && before[leaf] == before[leaf.parent] + 1
    ensures forall d :: d in M && d.children == [] && d != leaf ==> d.pLevel == before[d]
    ensures !Consistent(M)
  {
    hide Tree, Elem.Placed, Elem.HoldsMin;
    var root, a, b;
    M, root, a, b := TwoLeafMesh();
    SetActiveLevel(b, 1, M);
    SetActiveLevel(a, 2, M);
    TwoChildren(root, a, b, M);
    before := LevelsOf(M);
    p := 256;
    SetActiveLevel(a, p, M);
    leaf := a;
  }
}
