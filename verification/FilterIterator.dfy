// Iteration over the entries of a range that satisfy a predicate, and the
// compound predicates it is used with.
module FilterIterator {
  import opened Wrappers

  import ElemTree

  // ---- The specification: filtering the range -----------------------------------

  // p may be evaluated at every position of [lo, hi).
  ghost predicate Defined(p: nat --> bool, lo: nat, hi: nat) {
    forall i: nat :: lo <= i < hi ==> p.requires(i)
  }

  // Positions in [lo, hi) that satisfy p, in order.
  ghost function Filter(p: nat --> bool, lo: nat, hi: nat): (r: seq<nat>)
    requires lo <= hi && Defined(p, lo, hi)
    decreases hi - lo
  {
    if lo == hi then [] else (if p(lo) then [lo] else []) + Filter(p, lo + 1, hi)
  }

  // Filtering keeps exactly the satisfying positions, once each and in order.
  lemma {:induction false} FilterMeaning(p: nat --> bool, lo: nat, hi: nat)
    requires lo <= hi && Defined(p, lo, hi)
    ensures forall i: nat :: i in Filter(p, lo, hi) <==> lo <= i < hi && p(i)
    ensures forall a, b :: 0 <= a < b < |Filter(p, lo, hi)| ==> Filter(p, lo, hi)[a] < Filter(p, lo, hi)[b]
    decreases hi - lo
  {
    if lo == hi {
    } else {
      FilterMeaning(p, lo + 1, hi);
      var rest := Filter(p, lo + 1, hi);
      assert forall b :: 0 <= b < |rest| ==> rest[b] in rest;
    }
  }

  lemma {:induction false} FilterSkips(p: nat --> bool, lo: nat, mid: nat, hi: nat)
    requires lo <= mid <= hi && Defined(p, lo, hi)
    requires forall i: nat :: lo <= i < mid ==> !p(i)
    ensures Filter(p, lo, hi) == Filter(p, mid, hi)
    decreases mid - lo
  {
    if lo == mid {
    } else {
      FilterSkips(p, lo + 1, mid, hi);
    }
  }

  // ---- The iterator -----------------------------------------------------------------

  // The predicate is a partial function that need not be defined at the end
  // position, so every evaluation below is proved to happen before the end.
  class VariantFilterIterator {
    var data: nat
    const end: nat
    const pred: nat --> bool

    // At the end, or at an entry that satisfies the predicate.
    ghost predicate Valid()
      reads this
    {
      data <= end && Defined(pred, data, end) && (data < end ==> pred(data))
    }

    // The entries the iteration has still to visit.
    ghost function Remaining(): seq<nat>
      requires Valid()
      reads this
    {
      Filter(pred, data, end)
    }

    constructor (d: nat, e: nat, p: nat --> bool)
      requires d <= e && Defined(p, d, e)
      ensures Valid() && end == e && pred == p
      ensures Remaining() == Filter(p, d, e)
    {
      data, end, pred := d, e, p;
      new;
      SatisfyPredicate();
    }

    // A second iterator at the same place.
    constructor Copy(rhs: VariantFilterIterator)
      requires rhs.Valid()
      ensures Valid() && end == rhs.end && pred == rhs.pred && data == rhs.data
    {
      data, end, pred := rhs.data, rhs.end, rhs.pred;
    }

    // Advances until the end is reached or the predicate is satisfied.
    method SatisfyPredicate()
      requires data <= end && Defined(pred, data, end)
      modifies this`data
      ensures Valid() && old(data) <= data
      ensures Remaining() == Filter(pred, old(data), end)
      ensures forall i: nat :: old(data) <= i < data ==> !pred(i)
    {
      while data != end && !pred(data)
        invariant old(data) <= data <= end
        invariant forall i: nat :: old(data) <= i < data ==> !pred(i)
        decreases end - data
      {
        data := data + 1;
      }
      FilterSkips(pred, old(data), data, end);
    }

    method Get() returns (position: nat)
      requires Valid() && data != end
      ensures Remaining() != [] && position == Remaining()[0]
    {
      position := data;
    }

    // Prefix increment.
    method Next()
      requires Valid() && data != end
      modifies this`data
      ensures Valid() && old(Remaining()) != [] && Remaining() == old(Remaining())[1..]
      ensures old(data) < data <= end
    {
      data := data + 1;
      SatisfyPredicate();
    }

    // Postfix increment: returns where this iterator was.
    method PostNext() returns (was: VariantFilterIterator)
      requires Valid() && data != end
      modifies this`data
      ensures fresh(was) && was.Valid() && was.end == end && was.pred == pred && was.data == old(data)
      ensures was.Remaining() == old(Remaining()) && Valid() && Remaining() == old(Remaining())[1..]
    {
      was := new VariantFilterIterator.Copy(this);
      data := data + 1;
      SatisfyPredicate();
    }

    predicate Equal(other: VariantFilterIterator)
      reads this, other
    {
      data == other.data
    }

    // The client's loop from an iterator to the end iterator.
    method VisitAll(last: VariantFilterIterator) returns (visited: seq<nat>)
      requires Valid() && last != this && last.data == end
      modifies this`data
      ensures visited == old(Remaining()) && data == end
    {
      visited := [];
      while !Equal(last)
        invariant Valid() && last.data == end
        invariant visited + Remaining() == old(Remaining())
        decreases end - data
      {
        var position := Get();
        visited := visited + [position];
        Next();
      }
    }
  }

  // A client's loop over the whole range [0, n).
  method VisitRange(n: nat, p: nat --> bool) returns (visited: seq<nat>)
    requires Defined(p, 0, n)
    ensures forall i: nat :: i in visited <==> i < n && p(i)
    ensures forall a, b :: 0 <= a < b < |visited| ==> visited[a] < visited[b]
  {
    var first := new VariantFilterIterator(0, n, p);
    var last := new VariantFilterIterator(n, n, p);
    FilterMeaning(p, 0, n);
    visited := first.VisitAll(last);
  }

  // Two iterators over one range are equal exactly when they have the same
  // entries left to visit.
  lemma EqualMeansSameRemaining(a: VariantFilterIterator, b: VariantFilterIterator)
    requires a.Valid() && b.Valid() && a.end == b.end && a.pred == b.pred
    ensures a.Equal(b) <==> a.Remaining() == b.Remaining()
  {
    FilterMeaning(a.pred, a.data, a.end);
    FilterMeaning(b.pred, b.data, b.end);
    if a.data < a.end {
      assert a.data in a.Remaining();
    }
    if b.data < b.end {
      assert b.data in b.Remaining();
    }
  }

  // ---- Compound predicates -------------------------------------------------------------

  // Every predicate may be evaluated once all earlier ones have held.
  ghost predicate Guarded<T>(preds: seq<T --> bool>, it: T) {
    preds == [] || (preds[0].requires(it) && (preds[0](it) ==> Guarded(preds[1..], it)))
  }

  predicate Conjunction<T>(preds: seq<T --> bool>, it: T)
    requires Guarded(preds, it)
  {
    |preds| == 0 || (preds[0](it) && Conjunction(preds[1..], it))
  }

  // Guarded and Conjunction in terms of the single predicates.
  lemma {:induction false} ConjunctionMeaning<T>(preds: seq<T --> bool>, it: T)
    ensures Guarded(preds, it) <==>
      forall i :: 0 <= i < |preds| && (forall j :: 0 <= j < i ==> preds[j].requires(it) && preds[j](it)) ==>
        preds[i].requires(it)
    ensures Guarded(preds, it) ==>
      (Conjunction(preds, it) <==> forall i :: 0 <= i < |preds| ==> preds[i].requires(it) && preds[i](it))
  {
    if preds == [] {
    } else {
      var rest := preds[1..];
      ConjunctionMeaning(rest, it);
      assert forall i :: 1 <= i < |preds| ==> preds[i] == rest[i - 1];
      assert forall i :: 0 <= i < |rest| ==> rest[i] == preds[i + 1];
    }
  }

  // Evaluates from the left and stops at the first predicate that fails.
  method EvaluateAll<T>(preds: seq<T --> bool>, it: T) returns (b: bool)
    requires Guarded(preds, it)
    ensures b == Conjunction(preds, it)
  {
    for i := 0 to |preds|
      invariant Guarded(preds[i..], it) && Conjunction(preds, it) == Conjunction(preds[i..], it)
    {
      assert preds[i..][0] == preds[i] && preds[i..][1..] == preds[i + 1..];
      if !preds[i](it) {
        return false;
      }
    }
    return true;
  }

  // What a container entry points to: nothing, or an element with these properties.
  datatype ElemInfo = ElemInfo(active: bool, processorId: nat, subdomainId: nat)

  type Entry = Option<ElemInfo>

  // The single predicates.
  predicate NotNull(it: Entry) {
    it.Some?
  }

  predicate IsActive(it: Entry)
    requires it.Some?
  {
    it.value.active
  }

  datatype Pid = Pid(pid: nat) {
    predicate Is(it: Entry)
      requires it.Some?
    {
      it.value.processorId == pid
    }

    predicate IsNot(it: Entry)
      requires it.Some?
    {
      it.value.processorId != pid
    }
  }

  datatype Subdomain = Subdomain(id: nat) {
    predicate Is(it: Entry)
      requires it.Some?
    {
      it.value.subdomainId == id
    }
  }

  // Predicates that look through the pointer.
  ghost predicate Dereferencing(p: Entry --> bool) {
    forall it: Entry :: p.requires(it) <==> it.Some?
  }

  lemma {:induction false} DefinedOnElements(rest: seq<Entry --> bool>, it: Entry)
    requires forall i :: 0 <= i < |rest| ==> Dereferencing(rest[i])
    ensures it.Some? ==> Guarded(rest, it)
    ensures it.Some? ==>
      (Conjunction(rest, it) <==> forall i :: 0 <= i < |rest| ==> rest[i].requires(it) && rest[i](it))
  {
    if rest == [] || it.None? {
    } else {
      DefinedOnElements(rest[1..], it);
      assert Dereferencing(rest[0]);
      if rest[0](it) {
        assert forall i :: 1 <= i < |rest| ==> rest[i] == rest[1..][i - 1];
      }
    }
  }

  // Testing not_null first makes any list of dereferencing predicates safe on
  // empty entries, and empty entries are left out.
  lemma NotNullFirstIsSafe(rest: seq<Entry --> bool>, it: Entry)
    requires forall i :: 0 <= i < |rest| ==> Dereferencing(rest[i])
    ensures Guarded([NotNull] + rest, it)
    ensures Conjunction([NotNull] + rest, it) <==>
      it.Some? && forall i :: 0 <= i < |rest| ==> rest[i].requires(it) && rest[i](it)
  {
    assert ([NotNull] + rest)[1..] == rest;
    DefinedOnElements(rest, it);
  }

  // A list that starts with a dereferencing predicate instead, as Subdomain
  // does, is safe exactly on the entries that point to an element.
  lemma WithoutNotNull(rest: seq<Entry --> bool>, it: Entry)
    requires rest != [] && forall i :: 0 <= i < |rest| ==> Dereferencing(rest[i])
    ensures Guarded(rest, it) <==> it.Some?
  {
    DefinedOnElements(rest, it);
    assert Dereferencing(rest[0]);
  }

  lemma SubdomainSafe(id: nat, it: Entry)
    ensures Guarded([Subdomain(id).Is], it) <==> it.Some?
    ensures it.Some? ==> (Conjunction([Subdomain(id).Is], it) <==> it.value.subdomainId == id)
  {
    WithoutNotNull([Subdomain(id).Is], it);
    DefinedOnElements([Subdomain(id).Is], it);
  }

  ghost predicate Matches(rest: seq<Entry --> bool>, it: Entry) {
    it.Some? && forall i :: 0 <= i < |rest| ==> rest[i].requires(it) && rest[i](it)
  }

  // Iterating over a container with a compound predicate that starts with
  // not_null visits exactly the entries that point to an element with all the
  // properties; no predicate is evaluated at the end or looks through an empty entry.
  method VisitMatching(entries: seq<Entry>, rest: seq<Entry --> bool>) returns (visited: seq<nat>)
    requires forall i :: 0 <= i < |rest| ==> Dereferencing(rest[i])
    ensures forall i: nat :: i in visited <==> i < |entries| && Matches(rest, entries[i])
    ensures forall a, b :: 0 <= a < b < |visited| ==> visited[a] < visited[b]
  {
    var preds := [NotNull] + rest;
    var holds := (i: nat) requires i < |entries| && Guarded(preds, entries[i]) => Conjunction(preds, entries[i]);
    forall i: nat | i < |entries|
      ensures holds.requires(i) && (holds(i) <==> Matches(rest, entries[i]))
    {
      NotNullFirstIsSafe(rest, entries[i]);
    }
    hide Guarded, Conjunction, Matches;
    visited := VisitRange(|entries|, holds);
  }

  // ActivePID, and ActiveNotThisPid for this processor's own id.
  method VisitActive(entries: seq<Entry>, pid: nat) returns (on: seq<nat>, off: seq<nat>)
    ensures forall i: nat :: i in on <==>
      i < |entries| && entries[i].Some? && entries[i].value.active && entries[i].value.processorId == pid
    ensures forall i: nat :: i in off <==>
      i < |entries| && entries[i].Some? && entries[i].value.active && entries[i].value.processorId != pid
    ensures forall a, b :: 0 <= a < b < |on| ==> on[a] < on[b]
    ensures forall a, b :: 0 <= a < b < |off| ==> off[a] < off[b]
    ensures forall i :: !(i in on && i in off)
  {
    on := VisitMatching(entries, [IsActive, Pid(pid).Is]);
    off := VisitMatching(entries, [IsActive, Pid(pid).IsNot]);
    forall i: nat | i < |entries|
      ensures Matches([IsActive, Pid(pid).Is], entries[i]) <==>
        entries[i].Some? && entries[i].value.active && entries[i].value.processorId == pid
      ensures Matches([IsActive, Pid(pid).IsNot], entries[i]) <==>
        entries[i].Some? && entries[i].value.active && entries[i].value.processorId != pid
    {
      TwoMatch(IsActive, Pid(pid).Is, entries[i]);
      TwoMatch(IsActive, Pid(pid).IsNot, entries[i]);
    }
  }

  lemma TwoMatch(p: Entry --> bool, q: Entry --> bool, it: Entry)
    ensures Matches([p, q], it) <==> it.Some? && p.requires(it) && p(it) && q.requires(it) && q(it)
  {
    assert [p, q][0] == p && [p, q][1] == q;
  }

  // ---- Sides of an element ----------------------------------------------------------------

  // The sides without a neighbour, found by iterating from side 0 to the end
  // side.  The predicate looks up a neighbour and is only defined below the
  // number of neighbours; it is never asked about the end side.
  method BoundarySides(e: ElemTree.Elem) returns (sides: seq<nat>)
    ensures forall s: nat :: s in sides <==> s < |e.neighbors| && e.neighbors[s] == null
    ensures forall a, b :: 0 <= a < b < |sides| ==> sides[a] < sides[b]
  {
    var neighbors := e.neighbors;
    var sideOnBoundary := (s: nat) requires s < |neighbors| => neighbors[s] == null;
    sides := VisitRange(|neighbors|, sideOnBoundary);
  }
}
