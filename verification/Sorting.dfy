/**
What Go's `sort.Slice` and `sort.Strings` promise: a sorted permutation. The sort is
not stable, so callers see no more than that about elements that compare equal.
*/
module Sorting {

  ghost predicate TotalPreorder<T(!new)>(le: (T, T) -> bool) {
    && (forall x, y :: le(x, y) || le(y, x))
    && (forall x, y, z :: le(x, y) && le(y, z) ==> le(x, z))
  }

  ghost predicate Sorted<T>(le: (T, T) -> bool, s: seq<T>) {
    forall i, j :: 0 <= i < j < |s| ==> le(s[i], s[j])
  }

  ghost predicate Distinct<T>(s: seq<T>) {
    forall i, j :: 0 <= i < j < |s| ==> s[i] != s[j]
  }

  method Insert<T(!new)>(le: (T, T) -> bool, s: seq<T>, x: T) returns (r: seq<T>)
    requires TotalPreorder(le) && Sorted(le, s)
    ensures Sorted(le, r) && multiset(r) == multiset(s) + multiset{x}
  {
    var p := 0;
    while p < |s| && le(s[p], x)
      invariant 0 <= p <= |s|
      invariant forall i :: 0 <= i < p ==> le(s[i], x)
    {
      p := p + 1;
    }
    r := s[..p] + [x] + s[p..];
    assert s == s[..p] + s[p..];
    assert forall i :: p <= i < |s| ==> le(x, s[i]);
  }

  method Sort<T(!new)>(le: (T, T) -> bool, s: seq<T>) returns (r: seq<T>)
    requires TotalPreorder(le)
    ensures Sorted(le, r) && multiset(r) == multiset(s)
  {
    r := [];
    for i := 0 to |s|
      invariant Sorted(le, r) && multiset(r) == multiset(s[..i])
    {
      r := Insert(le, r, s[i]);
      assert s[..i + 1] == s[..i] + [s[i]];
    }
    assert s[..|s|] == s;
  }

  lemma CountOfRepeated<T>(s: seq<T>, i: nat, j: nat)
    requires i < j < |s| && s[i] == s[j]
    ensures multiset(s)[s[i]] >= 2
  {
    assert s == s[..j] + s[j..];
    assert s[i] in s[..j] && s[j] in s[j..];
  }

  lemma {:induction false} CountOfDistinct<T>(s: seq<T>, x: T)
    requires Distinct(s)
    ensures multiset(s)[x] <= 1
  {
    if s != [] {
      CountOfDistinct(s[1..], x);
      assert s == [s[0]] + s[1..];
      if s[0] == x {
        assert x !in s[1..];
      }
    }
  }

  /** A permutation of a sequence without repetitions has none. */
  lemma PermutationDistinct<T>(a: seq<T>, b: seq<T>)
    requires multiset(a) == multiset(b) && Distinct(a)
    ensures Distinct(b) && |a| == |b|
  {
    assert |multiset(a)| == |a| && |multiset(b)| == |b|;
    forall i, j | 0 <= i < j < |b| ensures b[i] != b[j] {
      if b[i] == b[j] {
        CountOfRepeated(b, i, j);
        CountOfDistinct(a, b[i]);
      }
    }
  }

  lemma PermutationMembers<T>(a: seq<T>, b: seq<T>)
    requires multiset(a) == multiset(b)
    ensures forall x :: x in a <==> x in b
  {
    assert forall x :: x in a <==> x in multiset(a);
    assert forall x :: x in b <==> x in multiset(b);
  }

  lemma {:induction false} DistinctCardinality<T>(s: seq<T>)
    requires Distinct(s)
    ensures |set x | x in s| == |s|
  {
    if s != [] {
      var last := |s| - 1;
      DistinctCardinality(s[..last]);
      assert s == s[..last] + [s[last]];
      assert (set x | x in s) == (set x | x in s[..last]) + {s[last]};
    }
  }

  lemma SameMembersSameSize<T>(a: seq<T>, b: seq<T>)
    requires Distinct(a) && Distinct(b)
    requires forall x :: x in a <==> x in b
    ensures |a| == |b|
  {
    DistinctCardinality(a);
    DistinctCardinality(b);
    assert (set x | x in a) == (set x | x in b);
  }

  lemma SortedFirst<T>(le: (T, T) -> bool, a: seq<T>, x: T)
    requires Sorted(le, a) && x in a
    ensures a[0] == x || le(a[0], x)
  {
    var i :| 0 <= i < |a| && a[i] == x;
  }

  /** Two sorted arrangements of the same elements start with the same one. */
  lemma SameFirst<T>(le: (T, T) -> bool, a: seq<T>, b: seq<T>)
    requires Sorted(le, a) && Sorted(le, b) && multiset(a) == multiset(b) && a != [] && b != []
    requires forall x, y :: x in a && y in a && le(x, y) && le(y, x) ==> x == y
    ensures a[0] == b[0]
  {
    PermutationMembers(a, b);
    SortedFirst(le, a, b[0]);
    SortedFirst(le, b, a[0]);
  }

  lemma SameRest<T>(a: seq<T>, b: seq<T>)
    requires multiset(a) == multiset(b) && a != [] && b != [] && a[0] == b[0]
    ensures multiset(a[1..]) == multiset(b[1..])
  {
    assert a == [a[0]] + a[1..] && b == [b[0]] + b[1..];
    assert multiset(a[1..]) == multiset(a) - multiset{a[0]};
    assert multiset(b[1..]) == multiset(b) - multiset{b[0]};
  }

  lemma SortedRest<T>(le: (T, T) -> bool, a: seq<T>)
    requires Sorted(le, a) && a != []
    ensures Sorted(le, a[1..])
  {
  }

  /** A sorted arrangement is unique if elements that compare equal are equal. */
  lemma {:induction false} SortedUnique<T>(le: (T, T) -> bool, a: seq<T>, b: seq<T>)
    requires Sorted(le, a) && Sorted(le, b) && multiset(a) == multiset(b)
    requires forall x, y :: x in a && y in a && le(x, y) && le(y, x) ==> x == y
    ensures a == b
  {
    assert |multiset(a)| == |a| && |multiset(b)| == |b|;
    if a != [] {
      SameFirst(le, a, b);
      SameRest(a, b);
      SortedRest(le, a);
      SortedRest(le, b);
      SortedUnique(le, a[1..], b[1..]);
    }
  }
}
