// The adaptive refinement tree of mesh elements and its p levels.
module ElemTree {
  import opened Wrappers

  // unsigned char
  type Byte = x: int | 0 <= x < 256

  datatype RefinementState = Coarsen | DoNothing | Refine | JustRefined | JustCoarsened | Inactive | CoarsenInactive

  type Levels = map<Elem, int>

  class Elem {
    var parent: Elem?
    var children: seq<Elem>      // empty when no child array is allocated
    var neighbors: seq<Elem?>
    var rflag: RefinementState
    var pflag: RefinementState
    var pLevel: Byte
    var subdomainId: nat
    var processorId: nat

    // This element, its parent, and so on up to the level-0 element; and how
    // many steps that element is away.
    ghost var ups: set<Elem>
    ghost var depth: nat

    predicate Active(): (active: bool)
      reads this`rflag
      ensures active <==>
        rflag.DoNothing? || rflag.Coarsen? || rflag.Refine? || rflag.JustRefined? || rflag.JustCoarsened?
    {
      rflag != Inactive && rflag != CoarsenInactive
    }

    // Where this element hangs in the mesh M.
    ghost predicate Placed(M: set<Elem>)
      reads this`parent, this`children, this`rflag, this`ups, this`depth
      reads M`parent, M`children, M`ups, M`depth
    {
      && this in M
      && (parent == null ==> ups == {this} && depth == 0)
      && (parent != null ==>
            parent in M && ups == {this} + parent.ups && depth == parent.depth + 1 && this in parent.children)
      && (forall c :: c in children ==> c in M && c.parent == this)
      && (Active() <==> children == [])
    }

    // A newly made element that its parent does not know yet.
    ghost predicate Detached(M: set<Elem>)
      reads this`parent, this`ups, this`depth, M`ups, M`depth
    {
      && this !in M
      && (parent == null ==> ups == {this} && depth == 0)
      && (parent != null ==> parent in M && ups == {this} + parent.ups && depth == parent.depth + 1)
    }

    // With levels lv, this element's p level is the minimum of its children's.
    ghost predicate HoldsMin(lv: Levels)
      reads this`children
    {
      children != [] ==>
        && this in lv
        && (forall c :: c in children ==> c in lv && lv[this] <= lv[c])
        && (exists c :: c in children && lv[this] == lv[c])
    }

    // Exactly when storing p as an unsigned char cannot break the parent's minimum.
    ghost predicate Fits(p: nat)
      reads this, parent
    {
      p < 256 || parent == null || parent.pLevel == pLevel || p % 256 >= parent.pLevel
    }

    constructor (nSides: nat, p: Elem?, ghost M: set<Elem>)
      requires Tree(M) && (p != null ==> p in M)
      ensures fresh(this) && Detached(M) && parent == p && children == [] && Active()
      ensures rflag == DoNothing && pflag == DoNothing && neighbors == seq(nSides, _ => null)
      ensures pLevel == if p == null then 0 else p.pLevel
      ensures subdomainId == (if p == null then 0 else p.subdomainId)
      ensures processorId == (if p == null then 0 else p.processorId)
    {
      hide Placed, Tree, HoldsMin;
      parent := p;
      pLevel := 0;
      subdomainId, processorId := 0, 0;
      neighbors := seq(nSides, _ => null);
      children := [];
      rflag, pflag := DoNothing, DoNothing;
      ups := {this} + (if p == null then {} else p.ups);
      depth := if p == null then 0 else p.depth + 1;
      new;
      if parent != null {
        subdomainId := parent.subdomainId;
        processorId := parent.processorId;
      }
      if parent != null {
        ChildrenApart(parent, M);
        SetPLevel(parent.pLevel, M);
      } else {
        SetPLevel(0, M);
      }
    }

    // Stores p and lets the ancestors follow.  Ancestors are repaired before this
    // element in one branch and after it in the other, so nothing is asked of or
    // promised for the minimum at this element itself.  Wherever else the minimum
    // held, it still does, also in a mesh that has lost it in places.
    method SetPLevel(p: nat, ghost M: set<Elem>)
      requires Tree(M)
      requires this in M || (Detached(M) && (parent != null ==> p == parent.pLevel))
      modifies (if this in M then ups else {this})`pLevel
      ensures pLevel == p % 256
      ensures old(Fits(p)) ==>
        forall e :: e in M && e != this && e.HoldsMin(old(LevelsOf(M))) ==> e.HoldsMin(LevelsOf(M))
      ensures !old(Fits(p)) && this in M ==> parent != null && !parent.HoldsMin(LevelsOf(M))
      decreases depth, 1
    {
      hide HoldsMin, Placed, Tree;
      ghost var lv0 := LevelsOf(M);
      OnlyParentHolds(this, M);
      if parent != null {
        ChildrenApart(parent, M);
        var parentPLevel: nat := parent.pLevel;
        if parentPLevel > p {
          parent.SetPLevel(p, M);
          ghost var lv1 := LevelsOf(M);
          pLevel := p % 256;
          OthersKeepMin(this, M, lv1, LevelsOf(M));
          LoweredWithChild(parent, this, lv0, LevelsOf(M));
          return;
        } else if parentPLevel == pLevel && pLevel < p {
          RaiseFromMinimum(p, M);
          return;
        }
      }
      pLevel := p % 256;
      OthersKeepMin(this, M, lv0, LevelsOf(M));
      if this in M && parent != null {
        ChildChanged(parent, this, lv0, LevelsOf(M));
      }
    }

    // An element that was at its parent's level is raised: the parent moves to
    // the least level among all its children.
    method RaiseFromMinimum(p: nat, ghost M: set<Elem>)
      requires Tree(M) && this in M && parent != null && parent.pLevel == pLevel < p
      modifies ups`pLevel
      ensures pLevel == p % 256 && parent.HoldsMin(LevelsOf(M))
      ensures forall e :: e in M && e != this && e.HoldsMin(old(LevelsOf(M))) ==> e.HoldsMin(LevelsOf(M))
      decreases depth, 0
    {
      hide HoldsMin, Placed, Tree;
      ghost var lv0 := LevelsOf(M);
      OnlyParentHolds(this, M);
      ChildrenApart(parent, M);
      pLevel := p % 256;
      var parentPLevel := MinOverChildren(parent, p);
      OthersKeepMin(this, M, lv0, LevelsOf(M));
      parent.FollowChildren(parentPLevel, M);
    }

    // Moves to m, the least level among the children.
    method FollowChildren(m: nat, ghost M: set<Elem>)
      requires Tree(M) && this in M && forall c :: c in children ==> c in M && m <= c.pLevel
      requires exists c :: c in children && m == c.pLevel
      modifies ups`pLevel
      ensures HoldsMin(LevelsOf(M))
      ensures forall e :: e in M && e.HoldsMin(old(LevelsOf(M))) ==> e.HoldsMin(LevelsOf(M))
      decreases depth, 2
    {
      hide HoldsMin, Placed, Tree;
      ChildrenApart(this, M);
      if m != pLevel {
        SetPLevel(m, M);
      }
      BecomesMin(this, M);
    }

    // Refinement level: 0 without a parent, else one more than the parent's.
    function Level(ghost M: set<Elem>): (l: nat)
      requires Tree(M) && this in M
      reads M
      ensures l == depth
      decreases depth
    {
      assert Placed(M);
      if parent == null then 0 else parent.Level(M) + 1
    }

    method IsAncestorOf(descendant: Elem?, ghost M: set<Elem>) returns (r: bool)
      requires Tree(M) && (descendant != null ==> descendant in M)
      ensures r <==> descendant != null && this in descendant.ups
    {
      var e: Elem? := descendant;
      while e != null
        invariant e != null ==> e in M
        invariant descendant != null && this in descendant.ups <==> e != null && this in e.ups
        decreases if e == null then -1 else e.depth
      {
        if this == e {
          UpsInMesh(e, M);
          return true;
        }
        assert e.Placed(M);
        e := e.parent;
      }
      return false;
    }

    // The level-0 element above this one.
    method TopParent(ghost M: set<Elem>) returns (tp: Elem)
      requires Tree(M) && this in M
      ensures tp in ups && tp in M && tp.parent == null && tp.Level(M) == 0
      ensures forall a :: a in ups && a.parent == null ==> a == tp
    {
      tp := this;
      UpsInMesh(this, M);
      while tp.parent != null
        invariant tp in ups && tp in M
        invariant forall a :: a in ups && a.parent == null ==> a in tp.ups
        decreases tp.depth
      {
        StepUp(tp, this, M);
        tp := tp.parent;
      }
      assert tp.Placed(M);
    }

    // Which neighbour slot leads to e or to e's ancestor on this element's level.
    method WhichNeighborAmI(e: Elem, ghost M: set<Elem>) returns (r: Option<nat>)
      requires Tree(M) && this in M && e in M
      ensures var a := AncestorAt(e, depth, M);
        && a in e.ups
        && (r.Some? ==> r.value < |neighbors| && neighbors[r.value] == a && a !in neighbors[..r.value])
        && (r.None? ==> a !in neighbors)
    {
      var eparent := e;
      UpsInMesh(e, M);
      while eparent.Level(M) > Level(M)
        invariant eparent in M && eparent in e.ups && AncestorAt(eparent, depth, M) == AncestorAt(e, depth, M)
        decreases eparent.depth
      {
        StepUp(eparent, e, M);
        eparent := eparent.parent;
      }
      for s := 0 to |neighbors|
        invariant eparent !in neighbors[..s]
      {
        if neighbors[s] == eparent {
          return Some(s);
        }
      }
      return None;
    }

    // The largest p level among this element and all its descendants; where
    // parents are minima, that is the largest among the active ones.
    method MaxDescendantPLevel(ghost M: set<Elem>) returns (m: nat)
      requires Tree(M) && this in M
      ensures IsMaxFrom(m, this, M)
      ensures Consistent(M) ==> IsMaxBelow(m, this, M)
      decreases M - ups
    {
      assert Active() <==> children == [] by {
        assert Placed(M);
      }
      hide IsMaxFrom, IsMaxBelow, Placed, Tree, Consistent, HoldsMin;
      ChildrenApart(this, M);
      if Active() {
        MaxOverChildren(this, M, pLevel, []);
        return pLevel;
      }
      m := pLevel;
      ghost var maxima: seq<nat> := [];
      for c := 0 to |children|
        invariant |maxima| == c && pLevel <= m && (forall i :: 0 <= i < c ==> maxima[i] <= m)
        invariant forall i :: 0 <= i < c ==> IsMaxFrom(maxima[i], children[i], M)
        invariant m == pLevel || m in maxima
      {
        var r := children[c].MaxDescendantPLevel(M);
        maxima := maxima + [r];
        m := if m < r then r else m;
      }
      MaxOverChildren(this, M, m, maxima);
    }
  }

  // The ancestor-or-self of e at level l, or e itself when e is not deeper than l.
  ghost function AncestorAt(e: Elem, l: nat, M: set<Elem>): (a: Elem)
    requires Tree(M) && e in M
    reads M
    ensures a in M && a in e.ups && (e.depth >= l ==> a.depth == l) && (e.depth <= l ==> a == e)
    decreases e.depth
  {
    assert e.Placed(M);
    if e.depth <= l then e else AncestorAt(e.parent, l, M)
  }

  ghost function LevelsOf(M: set<Elem>): (lv: Levels)
    reads M`pLevel
    ensures lv.Keys == M
  {
    map e | e in M :: e.pLevel
  }

  ghost predicate Tree(M: set<Elem>)
    reads M`parent, M`children, M`rflag, M`ups, M`depth
  {
    forall e {:trigger e.Placed(M)} :: e in M ==> e.Placed(M)
  }

  ghost predicate Consistent(M: set<Elem>)
    reads M`children, M`pLevel
  {
    forall e {:trigger e.HoldsMin(LevelsOf(M))} :: e in M ==> e.HoldsMin(LevelsOf(M))
  }

  // ---- Shape ----------------------------------------------------------------

  // Ancestors lie in the mesh, and proper ancestors at strictly lower levels.
  lemma {:induction false} UpsInMesh(e: Elem, M: set<Elem>)
    requires Tree(M) && e in M
    ensures e in e.ups && e.ups <= M
    ensures forall a :: a in e.ups && a != e ==> a.depth < e.depth
    decreases e.depth
  {
    assert e.Placed(M);
    if e.parent == null {
    } else {
      UpsInMesh(e.parent, M);
    }
  }

  // The ancestors of an ancestor are ancestors.
  lemma {:induction false} UpsNested(a: Elem, e: Elem, M: set<Elem>)
    requires Tree(M) && e in M && a in e.ups
    ensures a.ups <= e.ups
    decreases e.depth
  {
    assert e.Placed(M);
    if a == e {
    } else {
      UpsNested(a, e.parent, M);
    }
  }

  // One step up from an ancestor of e reaches another one.
  lemma StepUp(a: Elem, e: Elem, M: set<Elem>)
    requires Tree(M) && e in M && a in M && a in e.ups
    ensures a.parent == null <==> a.depth == 0
    ensures a.parent != null ==> a.parent in M && a.parent in e.ups && a.depth == a.parent.depth + 1
    ensures a.parent != null ==> a.ups == {a} + a.parent.ups
  {
    assert a.Placed(M);
    UpsNested(a, e, M);
    if a.parent != null {
      UpsInMesh(a.parent, M);
    }
  }

  // What UpsInMesh says about an element, and that its children are none of its ancestors.
  lemma ChildrenApart(e: Elem, M: set<Elem>)
    requires Tree(M) && e in M
    ensures e in e.ups && e.ups <= M
    ensures forall a :: a in e.ups ==> a.depth <= e.depth && a !in e.children
    ensures forall c :: c in e.children ==> c in M && c !in e.ups && c.depth == e.depth + 1 && c.ups == {c} + e.ups
  {
    UpsInMesh(e, M);
    assert e.Placed(M) && forall c :: c in e.children ==> c.Placed(M);
  }

  // An element is in the child array of its parent, and in no other.
  lemma OnlyParentHolds(x: Elem, M: set<Elem>)
    requires Tree(M)
    ensures x in M && x.parent != null ==>
      x in x.parent.children && x.parent in M && x.ups == {x} + x.parent.ups && x.depth == x.parent.depth + 1
    ensures x in M ==> x in x.ups
    ensures forall e, c :: e in M && c in e.children ==> c in M
    ensures forall e :: e in M && x in e.children ==> x in M && e == x.parent
  {
    assert forall e :: e in M ==> e.Placed(M);
  }

  // ---- How the minimum at one element reacts to level changes ----------------

  lemma BecomesMin(e: Elem, M: set<Elem>)
    requires e in M && forall c :: c in e.children ==> c in M && e.pLevel <= c.pLevel
    requires exists c :: c in e.children && e.pLevel == c.pLevel
    ensures e.HoldsMin(LevelsOf(M))
  {
  }

  // A level change at x matters only to x itself and to the parent that holds it.
  lemma OthersKeepMin(x: Elem, M: set<Elem>, lv: Levels, lv': Levels)
    requires lv.Keys == lv'.Keys == M
    requires forall e :: e in M && e != x ==> lv[e] == lv'[e]
    ensures forall e :: e in M && e != x && x !in e.children && e.HoldsMin(lv) ==> e.HoldsMin(lv')
  {
  }

  // The element drops together with one of its children.
  lemma LoweredWithChild(e: Elem, x: Elem, lv: Levels, lv': Levels)
    requires lv.Keys == lv'.Keys && e in lv && x in lv && x in e.children && lv'[e] == lv'[x] < lv[e]
    requires forall c :: c in e.children && c != x ==> c in lv && lv'[c] == lv[c]
    ensures e.HoldsMin(lv) ==> e.HoldsMin(lv')
  {
  }

  // One child changes while the element and the other children stay.
  lemma ChildChanged(e: Elem, x: Elem, lv: Levels, lv': Levels)
    requires lv.Keys == lv'.Keys && x in e.children && e in lv && x in lv && lv'[e] == lv[e]
    requires forall c :: c in e.children && c != x ==> c in lv && lv'[c] == lv[c]
    ensures e.HoldsMin(lv) && (lv[x] != lv[e] || lv'[x] == lv[x]) && lv[e] <= lv'[x] ==> e.HoldsMin(lv')
    ensures lv'[x] < lv[e] ==> !e.HoldsMin(lv')
  {
    if e.HoldsMin(lv) {
      var w :| w in e.children && lv[e] == lv[w];
    }
  }

  // The least of p and the children's levels, one of which does not exceed p.
  method MinOverChildren(e: Elem, p: nat) returns (m: nat)
    requires exists c :: c in e.children && c.pLevel <= p
    ensures m <= p && forall c :: c in e.children ==> m <= c.pLevel
    ensures exists c :: c in e.children && m == c.pLevel
  {
    m := p;
    for i := 0 to |e.children|
      invariant m <= p && forall c :: c in e.children[..i] ==> m <= c.pLevel
      invariant m == p || exists c :: c in e.children[..i] && m == c.pLevel
    {
      m := if e.children[i].pLevel < m then e.children[i].pLevel else m;
    }
  }

  // ---- Active descendants -----------------------------------------------------

  // d is an active descendant of e, or e itself when active.
  ghost predicate IsLeafBelow(d: Elem, e: Elem)
    reads d`ups, d`children
  {
    e in d.ups && d.children == []
  }

  // A leaf below an element is the element itself or lies below one of its children.
  lemma {:induction false} ThroughChild(d: Elem, e: Elem, M: set<Elem>) returns (c: Elem)
    requires Tree(M) && d in M && e in M && e in d.ups && d != e
    ensures c in e.children && c in d.ups
    decreases d.depth
  {
    assert d.Placed(M);
    if d.parent == e {
      c := d;
    } else {
      c := ThroughChild(d.parent, e, M);
    }
  }

  // m is the maximum level over e and all its descendants.
  ghost predicate IsMaxFrom(m: nat, e: Elem, M: set<Elem>)
    reads M
  {
    && (forall d :: d in M && e in d.ups ==> d.pLevel <= m)
    && (exists d :: d in M && e in d.ups && d.pLevel == m)
  }

  // m is the maximum level over the active descendants of e.
  ghost predicate IsMaxBelow(m: nat, e: Elem, M: set<Elem>)
    reads M
  {
    && (forall d :: d in M && IsLeafBelow(d, e) ==> d.pLevel <= m)
    && (exists d :: d in M && IsLeafBelow(d, e) && d.pLevel == m)
  }

  // The larger of an element's own level and the maxima from its children.
  lemma MaxOverChildren(e: Elem, M: set<Elem>, m: nat, maxima: seq<nat>)
    requires Tree(M) && e in M && |maxima| == |e.children| && e.pLevel <= m
    requires forall i :: 0 <= i < |maxima| ==> maxima[i] <= m && IsMaxFrom(maxima[i], e.children[i], M)
    requires m == e.pLevel || m in maxima
    ensures IsMaxFrom(m, e, M) && (Consistent(M) ==> IsMaxBelow(m, e, M))
  {
    hide IsMaxBelow, Tree, Elem.Placed, Elem.HoldsMin;
    ChildrenApart(e, M);
    forall d | d in M && e in d.ups
      ensures d.pLevel <= m
    {
      if d != e {
        var c := ThroughChild(d, e, M);
        var i :| 0 <= i < |maxima| && e.children[i] == c;
        assert IsMaxFrom(maxima[i], c, M);
      }
    }
    if m != e.pLevel {
      var i :| 0 <= i < |maxima| && maxima[i] == m;
      assert IsMaxFrom(maxima[i], e.children[i], M);
      var w :| w in M && e.children[i] in w.ups && w.pLevel == m;
      UpsNested(e.children[i], w, M);
    }
    if Consistent(M) {
      MaxAtLeaf(e, M, m);
    }
  }

  // Where parents are minima, some active descendant is as high as any element.
  lemma MaxAtLeaf(e: Elem, M: set<Elem>, m: nat)
    requires Tree(M) && Consistent(M) && e in M && IsMaxFrom(m, e, M)
    ensures IsMaxBelow(m, e, M)
  {
    var w :| w in M && e in w.ups && w.pLevel == m;
    var low := LeafAtMin(w, M, LevelsOf(M));
    UpsNested(w, low, M);
  }

  ghost predicate ConsistentLevels(M: set<Elem>, lv: Levels)
    reads M`children
  {
    lv.Keys == M && forall e {:trigger e.HoldsMin(lv)} :: e in M ==> e.HoldsMin(lv)
  }

  // No active descendant lies below the level of an element ...
  lemma {:induction false} LeafAboveMin(d: Elem, e: Elem, M: set<Elem>, lv: Levels)
    requires Tree(M) && ConsistentLevels(M, lv) && d in M && e in M && e in d.ups
    ensures lv[e] <= lv[d]
    decreases d.depth
  {
    if d == e {
    } else {
      assert d.Placed(M);
      assert d.parent.HoldsMin(lv);
      LeafAboveMin(d.parent, e, M, lv);
    }
  }

  // ... and some active descendant is exactly there.
  lemma {:induction false} LeafAtMin(e: Elem, M: set<Elem>, lv: Levels) returns (d: Elem)
    requires Tree(M) && ConsistentLevels(M, lv) && e in M
    ensures d in M && IsLeafBelow(d, e) && lv[d] == lv[e]
    decreases M - e.ups
  {
    UpsInMesh(e, M);
    if e.children == [] {
      d := e;
    } else {
      ChildrenApart(e, M);
      assert e.HoldsMin(lv);
      var c :| c in e.children && lv[e] == lv[c];
      assert c.Placed(M);
      d := LeafAtMin(c, M, lv);
      UpsNested(c, d, M);
    }
  }
}
