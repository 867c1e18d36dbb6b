// Completing an abbreviated enumeration value from the ordered set of allowed
// strings of a parameter.
module PatternMatch {
  // The order of std::set<std::string>.
  predicate Lex(a: string, b: string) {
    b != [] && (a == [] || a[0] < b[0] || (a[0] == b[0] && Lex(a[1..], b[1..])))
  }

  // A proper prefix comes first; otherwise the first difference decides.
  lemma {:induction false} LexMeaning(a: string, b: string)
    ensures Lex(a, b) <==>
      (a <= b && a != b) || exists k :: 0 <= k < |a| && k < |b| && a[..k] == b[..k] && a[k] < b[k]
    decreases |a|
  {
    if a == [] || b == [] {
    } else if a[0] == b[0] {
      LexMeaning(a[1..], b[1..]);
      LexOfTails(a, b);
    } else {
      assert a[0] < b[0] ==> a[..0] == b[..0];
    }
  }

  lemma LexOfTails(a: string, b: string)
    requires a != [] && b != [] && a[0] == b[0]
    ensures a <= b <==> a[1..] <= b[1..]
    ensures (exists k :: 0 <= k < |a| && k < |b| && a[..k] == b[..k] && a[k] < b[k])
       <==> exists k :: 0 <= k < |a| - 1 && k < |b| - 1 && a[1..][..k] == b[1..][..k] && a[1..][k] < b[1..][k]
  {
    assert a == [a[0]] + a[1..] && b == [b[0]] + b[1..];
    forall k | 0 < k < |a| && k < |b|
      ensures a[..k] == b[..k] <==> a[1..][..k - 1] == b[1..][..k - 1]
    {
      assert a[..k] == [a[0]] + a[1..][..k - 1] && b[..k] == [b[0]] + b[1..][..k - 1];
    }
    if k :| 0 <= k < |a| && k < |b| && a[..k] == b[..k] && a[k] < b[k] {
      assert a[1..][..k - 1] == b[1..][..k - 1] && a[1..][k - 1] < b[1..][k - 1];
    }
    if k :| 0 <= k < |a| - 1 && k < |b| - 1 && a[1..][..k] == b[1..][..k] && a[1..][k] < b[1..][k] {
      assert a[..k + 1] == b[..k + 1] && a[k + 1] < b[k + 1];
    }
  }

  // The set's elements in iteration order.
  ghost predicate Ordered(patterns: seq<string>) {
    forall i, j :: 0 <= i < j < |patterns| ==> Lex(patterns[i], patterns[j])
  }

  // ---- Prefixes and the order ------------------------------------------------------

  // Strings between p and an extension of p extend p.
  lemma {:induction false} Between(p: string, q: string, r: string)
    requires Lex(p, q) && Lex(q, r) && p <= r
    ensures p <= q
    decreases |p|
  {
    if p == [] {
    } else {
      assert p[0] == r[0];
      Between(p[1..], q[1..], r[1..]);
    }
  }

  // The same when p itself is only known to be a prefix of something before q.
  lemma {:induction false} BetweenExtensions(s: string, p: string, q: string, r: string)
    requires Lex(p, q) && Lex(q, r) && s <= p && s <= r
    ensures s <= q
    decreases |s|
  {
    if s == [] {
    } else {
      assert p[0] == s[0] == r[0];
      BetweenExtensions(s[1..], p[1..], q[1..], r[1..]);
    }
  }

  // ---- What the lookup decides ------------------------------------------------------

  // find(s) == 0 on a pattern
  predicate Extends(pattern: string, s: string) {
    s <= pattern
  }

  // Index of the least pattern that extends s, or the number of patterns.
  function Least(patterns: seq<string>, s: string): (i: nat)
    ensures i <= |patterns| && (i < |patterns| ==> Extends(patterns[i], s))
    ensures forall k :: 0 <= k < i ==> !Extends(patterns[k], s)
  {
    if patterns == [] || Extends(patterns[0], s) then 0
    else
      var i := 1 + Least(patterns[1..], s);
      assert forall k :: 1 <= k < i ==> patterns[k] == patterns[1..][k - 1];
      i
  }

  // The least extension of s is not itself extended by its successor.
  predicate Completes(patterns: seq<string>, s: string) {
    var i := Least(patterns, s);
    i < |patterns| && !(i + 1 < |patterns| && Extends(patterns[i + 1], patterns[i]))
  }

  ghost predicate OnlyExtension(patterns: seq<string>, s: string, i: int) {
    0 <= i < |patterns| && Extends(patterns[i], s)
    && forall k :: 0 <= k < |patterns| && Extends(patterns[k], s) ==> k == i
  }

  // Exactly one pattern extends s.
  ghost predicate Unique(patterns: seq<string>, s: string) {
    exists i :: OnlyExtension(patterns, s, i)
  }

  // Where the run of patterns that starts at i and in which each one extends
  // the one before it ends.
  function RunEnd(patterns: seq<string>, i: nat): (e: nat)
    requires i < |patterns|
    ensures i <= e < |patterns| && (e + 1 < |patterns| ==> !Extends(patterns[e + 1], patterns[e]))
    ensures forall k :: i <= k < e ==> Extends(patterns[k + 1], patterns[k])
    decreases |patterns| - i
  {
    if i + 1 < |patterns| && Extends(patterns[i + 1], patterns[i]) then RunEnd(patterns, i + 1) else i
  }

  // Returns 0 and the completed string, or 1.  Found or not, s has been rewritten
  // to the end of the run of extensions that starts at the least one.
  method StringPatternMatch(patterns: seq<string>, s0: string) returns (code: int, s: string)
    requires Ordered(patterns)
    ensures code == 0 || code == 1
    ensures code == 0 <==> s0 in patterns || Completes(patterns, s0)
    ensures s0 in patterns ==> s == s0
    ensures s0 !in patterns ==>
      var i := Least(patterns, s0);
      s == if i == |patterns| then s0 else patterns[RunEnd(patterns, i)]
    ensures s0 !in patterns && code == 0 ==> s == patterns[Least(patterns, s0)]
    ensures s == s0 || (s in patterns && s0 <= s)
    ensures forall i :: OnlyExtension(patterns, s0, i) ==> code == 0 && s == patterns[i]
  {
    hide Ordered, Least, RunEnd, Completes, OnlyExtension;
    s := s0;
    if s in patterns {
      PlainOutcome(patterns, s0, 0, s);
      return 0, s;
    }
    var count := 0;
    ghost var i := Least(patterns, s0);
    ghost var e := if i < |patterns| then RunEnd(patterns, i) else i;
    for j := 0 to |patterns|
      invariant j <= i ==> count == 0 && s == s0
      invariant i < j <= e + 1 ==> count == j - i && s == patterns[j - 1]
      invariant e + 1 < j ==> count == e + 1 - i && s == patterns[e]
    {
      if e < j {
        NothingAfterRun(patterns, e, j);
      }
      var pattern := patterns[j];
      if Extends(pattern, s) {
        s := pattern;
        count := count + 1;
      }
    }
    LastOfRun(patterns, s0, i, e, count);
    PlainOutcome(patterns, s0, if count != 1 then 1 else 0, s);
    if count != 1 {
      return 1, s;
    }
    return 0, s;
  }

  // The loop counts the run of extensions, and one is what counts.
  lemma LastOfRun(patterns: seq<string>, s0: string, i: int, e: int, count: int)
    requires i == Least(patterns, s0) && e == (if i < |patterns| then RunEnd(patterns, i) else i)
    requires count == if i < |patterns| then e + 1 - i else 0
    ensures count == 1 <==> Completes(patterns, s0)
    ensures count == 1 ==> e == i
  {
  }

  // Of the two strings only the prefix relation matters, and a single extension is found.
  lemma PlainOutcome(patterns: seq<string>, s0: string, code: int, s: string)
    requires Ordered(patterns)
    requires code == 0 <==> s0 in patterns || Completes(patterns, s0)
    requires s0 in patterns ==> s == s0
    requires s0 !in patterns ==>
      var i := Least(patterns, s0);
      s == if i == |patterns| then s0 else patterns[RunEnd(patterns, i)]
    requires s0 !in patterns && code == 0 ==> s == patterns[Least(patterns, s0)]
    ensures s == s0 || (s in patterns && s0 <= s)
    ensures forall i :: OnlyExtension(patterns, s0, i) ==> code == 0 && s == patterns[i]
  {
    hide Ordered, Least, RunEnd, Completes;
    var i := Least(patterns, s0);
    if i < |patterns| {
      RunExtends(patterns, s0, i, RunEnd(patterns, i));
    }
    forall k | OnlyExtension(patterns, s0, k)
      ensures code == 0 && s == patterns[k]
    {
      if s0 in patterns {
        var j :| 0 <= j < |patterns| && patterns[j] == s0;
        assert Extends(patterns[j], s0);
      } else {
        UniqueIsCompleted(patterns, s0);
        assert k == i;
      }
    }
  }

  // Completion, in terms of prefixes.
  lemma CompletesPlainly(patterns: seq<string>, s: string)
    requires Ordered(patterns)
    ensures Completes(patterns, s) <==> exists i :: (0 <= i < |patterns| && s <= patterns[i]
      && (forall k :: 0 <= k < i ==> !(s <= patterns[k]))
      && (forall k :: i < k < |patterns| ==> !(patterns[i] <= patterns[k])))
  {
    SuccessorDecides(patterns, s);
    hide Least, Completes, Ordered;
    var i := Least(patterns, s);
    assert forall k :: 0 <= k < i ==> !Extends(patterns[k], s);
    if j :| 0 <= j < |patterns| && s <= patterns[j] && (forall k :: 0 <= k < j ==> !(s <= patterns[k]))
            && forall k :: j < k < |patterns| ==> !(patterns[j] <= patterns[k]) {
      assert Extends(patterns[j], s) && i == j;
    }
  }

  // All of a run extends what its first pattern extends.
  lemma {:induction false} RunExtends(patterns: seq<string>, s: string, i: nat, e: nat)
    requires i <= e < |patterns| && Extends(patterns[i], s)
    requires forall k :: i <= k < e ==> Extends(patterns[k + 1], patterns[k])
    ensures Extends(patterns[e], s)
    decreases e - i
  {
    if i == e {
    } else {
      ExtendsTransitive(s, patterns[i], patterns[i + 1]);
      RunExtends(patterns, s, i + 1, e);
    }
  }

  // Where the successor does not extend a pattern, nothing further on does.
  lemma NothingAfterRun(patterns: seq<string>, e: int, k: int)
    requires Ordered(patterns) && 0 <= e < k < |patterns| && !Extends(patterns[e + 1], patterns[e])
    ensures !Extends(patterns[k], patterns[e])
  {
    hide Lex;
    if e + 1 < k && Extends(patterns[k], patterns[e]) {
      Between(patterns[e], patterns[e + 1], patterns[k]);
    }
  }

  // If anything after the least extension extends it, its successor does.
  lemma SuccessorDecides(patterns: seq<string>, s: string)
    requires Ordered(patterns)
    ensures var i := Least(patterns, s);
      Completes(patterns, s) <==>
        i < |patterns| && forall k :: i < k < |patterns| ==> !Extends(patterns[k], patterns[i])
  {
    hide Lex, Least;
    var i := Least(patterns, s);
    forall k | i + 1 < k < |patterns| && Extends(patterns[k], patterns[i])
      ensures Extends(patterns[i + 1], patterns[i])
    {
      Between(patterns[i], patterns[i + 1], patterns[k]);
    }
  }

  lemma NoGap(patterns: seq<string>, s: string, i: int, k: int)
    requires Ordered(patterns) && 0 <= i < i + 1 < k < |patterns|
    requires Extends(patterns[i], s) && Extends(patterns[k], s)
    ensures Extends(patterns[i + 1], s)
  {
    hide Lex;
    BetweenExtensions(s, patterns[i], patterns[i + 1], patterns[k]);
  }

  // The next pattern tells whether the least extension is the only one.
  lemma UniqueBySuccessor(patterns: seq<string>, s: string)
    requires Ordered(patterns)
    ensures var i := Least(patterns, s);
      Unique(patterns, s) <==> i < |patterns| && !(i + 1 < |patterns| && Extends(patterns[i + 1], s))
  {
    hide Ordered, Extends, Least;
    var i := Least(patterns, s);
    if i < |patterns| && !(i + 1 < |patterns| && Extends(patterns[i + 1], s)) {
      forall k | 0 <= k < |patterns| && Extends(patterns[k], s)
        ensures k == i
      {
        if i + 1 < k {
          NoGap(patterns, s, i, k);
        }
      }
      assert OnlyExtension(patterns, s, i);
    }
  }

  lemma ExtendsTransitive(a: string, b: string, c: string)
    requires Extends(b, a) && Extends(c, b)
    ensures Extends(c, a)
  {
    assert a == b[..|a|] == c[..|b|][..|a|];
  }

  // The uniqueness check is right exactly when the first two extensions, if
  // there are two, are prefix and extension: otherwise rewriting s in the loop
  // makes it overlook the second one.
  lemma UniquenessCheckExact(patterns: seq<string>, s: string)
    requires Ordered(patterns)
    ensures var i := Least(patterns, s);
      (Completes(patterns, s) <==> Unique(patterns, s)) <==>
        (i + 1 < |patterns| && Extends(patterns[i + 1], s) ==> Extends(patterns[i + 1], patterns[i]))
  {
    UniqueBySuccessor(patterns, s);
    hide Least, Unique, Ordered, Extends;
    var i := Least(patterns, s);
    if i + 1 < |patterns| && Extends(patterns[i + 1], patterns[i]) {
      ExtendsTransitive(s, patterns[i], patterns[i + 1]);
    }
  }

  // A single extending pattern is always found.
  lemma UniqueIsCompleted(patterns: seq<string>, s: string)
    requires Ordered(patterns) && Unique(patterns, s)
    ensures Completes(patterns, s)
  {
    UniquenessCheckExact(patterns, s);
    UniqueBySuccessor(patterns, s);
  }

  // An ambiguous abbreviation that is accepted.
  lemma AmbiguousAccepted()
    ensures var patterns := ["schottky", "simple"];
      Ordered(patterns) && Completes(patterns, "s") && !Unique(patterns, "s")
  {
    var patterns := ["schottky", "simple"];
    assert patterns[0][1] == 'c' && patterns[1][1] == 'i';
    assert Lex(patterns[0][1..], patterns[1][1..]);
    assert "s" <= patterns[0] && "s" <= patterns[1];
    assert Least(patterns, "s") == 0;
  }
}
