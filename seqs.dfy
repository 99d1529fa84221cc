/** Sequence helpers: the row filter behind `queryset.filter(...)` and facts
    about reorderings. */
module Seqs {

  /** The elements of `s` satisfying `p`, in their original order. */
  function Filter<T(!new)>(s: seq<T>, p: T -> bool): (r: seq<T>)
    ensures |r| <= |s|
    ensures forall x :: x in r <==> x in s && p(x)
    ensures forall x :: p(x) ==> multiset(r)[x] == multiset(s)[x]
    ensures forall x :: !p(x) ==> multiset(r)[x] == 0
    decreases |s|
  {
    if s == [] then []
    else
      var rest := Filter(s[..|s| - 1], p);
      assert s == s[..|s| - 1] + [s[|s| - 1]];
      if p(s[|s| - 1]) then rest + [s[|s| - 1]] else rest
  }

  ghost predicate Distinct<T>(s: seq<T>) {
    forall i, j | 0 <= i < j < |s| :: s[i] != s[j]
  }

  lemma {:induction false} DistinctCountsAtMostOne<T>(s: seq<T>, x: T)
    requires Distinct(s)
    ensures multiset(s)[x] <= 1
    decreases |s|
  {
    if s != [] {
      var init := s[..|s| - 1];
      assert s == init + [s[|s| - 1]];
      DistinctCountsAtMostOne(init, x);
      if x == s[|s| - 1] {
        assert x !in init by {
          forall i | 0 <= i < |init| ensures init[i] != x {
            assert init[i] == s[i];
          }
        }
      }
    }
  }

  lemma RepeatCountsTwice<T>(s: seq<T>, i: int, j: int)
    requires 0 <= i < j < |s| && s[i] == s[j]
    ensures multiset(s)[s[i]] >= 2
  {
    assert s == s[..j] + s[j..];
    assert s[i] in s[..j];
    assert s[j] in s[j..];
  }

  /** A reordering of a sequence without repeats has no repeats. */
  lemma DistinctPermutation<T>(a: seq<T>, b: seq<T>)
    requires multiset(a) == multiset(b) && Distinct(b)
    ensures Distinct(a)
  {
    forall i, j | 0 <= i < j < |a| ensures a[i] != a[j] {
      if a[i] == a[j] {
        RepeatCountsTwice(a, i, j);
        DistinctCountsAtMostOne(b, a[i]);
      }
    }
  }

  /** Two reorderings of each other have the same length and the same members. */
  lemma PermutationMembers<T>(a: seq<T>, b: seq<T>)
    requires multiset(a) == multiset(b)
    ensures |a| == |b|
    ensures forall x :: x in a <==> x in b
  {
    assert |a| == |multiset(a)| && |b| == |multiset(b)|;
    forall x ensures x in a <==> x in b {
      assert x in a <==> x in multiset(a);
      assert x in b <==> x in multiset(b);
    }
  }
}
