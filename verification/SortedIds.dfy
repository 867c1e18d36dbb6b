// Sorted sequences of node ids: the result of std::sort, and what is unique about it.
module SortedIds {
  // unsigned int
  newtype Id = x: int | 0 <= x < 0x1_0000_0000

  ghost predicate Sorted(s: seq<Id>) {
    forall i, j :: 0 <= i < j < |s| ==> s[i] <= s[j]
  }

  function Insert(x: Id, s: seq<Id>): (r: seq<Id>)
    ensures multiset(r) == multiset(s) + multiset{x}
  {
    if s == [] || x <= s[0] then [x] + s
    else
      assert s == [s[0]] + s[1..];
      [s[0]] + Insert(x, s[1..])
  }

  lemma {:induction false} InsertKeepsSorted(x: Id, s: seq<Id>)
    requires Sorted(s)
    ensures Sorted(Insert(x, s))
  {
    if s == [] || x <= s[0] {
    } else {
      var r := Insert(x, s[1..]);
      InsertKeepsSorted(x, s[1..]);
      forall i | 0 <= i < |r|
        ensures s[0] <= r[i]
      {
        assert r[i] in multiset(r);
        assert r[i] == x || r[i] in s[1..];
      }
    }
  }

  // What std::sort leaves in place of s.
  function Sort(s: seq<Id>): (r: seq<Id>)
    ensures Sorted(r) && multiset(r) == multiset(s) && |r| == |s|
  {
    if s == [] then [] else
      assert s == [s[0]] + s[1..];
      InsertKeepsSorted(s[0], Sort(s[1..]));
      var r := Insert(s[0], Sort(s[1..]));
      assert |multiset(r)| == |multiset(s)|;
      r
  }

  // A multiset has one sorted arrangement.
  lemma {:induction false} SortedUnique(a: seq<Id>, b: seq<Id>)
    requires Sorted(a) && Sorted(b) && multiset(a) == multiset(b)
    ensures a == b
  {
    assert |a| == |multiset(a)| == |multiset(b)| == |b|;
    if a == [] {
    } else {
      LeastFirst(a, b);
      LeastFirst(b, a);
      WithoutFirst(a);
      WithoutFirst(b);
      SortedUnique(a[1..], b[1..]);
    }
  }

  lemma WithoutFirst(a: seq<Id>)
    requires a != []
    ensures multiset(a[1..]) == multiset(a) - multiset{a[0]}
  {
    assert a == [a[0]] + a[1..];
  }

  lemma LeastFirst(a: seq<Id>, b: seq<Id>)
    requires Sorted(a) && multiset(a) == multiset(b) && a != [] && b != []
    ensures a[0] <= b[0]
  {
    assert b[0] in multiset(b);
    assert b[0] in a;
  }

  lemma SortIs(s: seq<Id>, t: seq<Id>)
    requires Sorted(s) && multiset(s) == multiset(t)
    ensures s == Sort(t)
  {
    hide Insert;
    SortedUnique(s, Sort(t));
  }
}
