/** Removal of every occurrence of one element from a sequence, keeping the
    order of the rest: the abstract meaning of removal by identity. */
module Sequences {
  import opened Ordering

  /** `s` with every element equal to `x` dropped, the others in their order. */
  function Without<T(==)>(s: seq<T>, x: T): (r: seq<T>)
    ensures x !in r
    ensures |r| <= |s|
  {
    if s == [] then []
    else if s[0] == x then Without(s[1..], x)
    else [s[0]] + Without(s[1..], x)
  }

  /** Filtering drops exactly the occurrences of `x` and keeps every other
      element as often as it occurred. */
  lemma {:induction false} WithoutCounts<T>(s: seq<T>, x: T)
    ensures multiset(Without(s, x)) == multiset(s)[x := 0]
    ensures |Without(s, x)| == |s| - multiset(s)[x]
  {
    if s != [] {
      WithoutCounts(s[1..], x);
      assert s == [s[0]] + s[1..];
    }
  }

  /** Filtering distributes over concatenation. */
  lemma {:induction false} WithoutAppend<T>(a: seq<T>, b: seq<T>, x: T)
    ensures Without(a + b, x) == Without(a, x) + Without(b, x)
  {
    if a != [] {
      assert (a + b)[1..] == a[1..] + b;
      WithoutAppend(a[1..], b, x);
    } else {
      assert a + b == b;
    }
  }

  /** A sequence without `x` is left alone by filtering `x` out. */
  lemma {:induction false} WithoutAbsent<T>(s: seq<T>, x: T)
    requires x !in s
    ensures Without(s, x) == s
  {
    if s != [] {
      WithoutAbsent(s[1..], x);
      assert s == [s[0]] + s[1..];
    }
  }

  /** Filtering out an element that occurs once, between two stretches
      without it, joins the two stretches. */
  lemma WithoutSplice<T>(a: seq<T>, x: T, b: seq<T>)
    requires x !in a && x !in b
    ensures Without(a + [x] + b, x) == a + b
    ensures multiset(a + [x] + b)[x] == 1
  {
    var ax := a + [x];
    WithoutAppend(a, [x], x);
    assert Without([x], x) == Without([], x) by {
      assert [x][1..] == [];
    }
    WithoutAbsent(a, x);
    assert Without(ax, x) == a;
    WithoutAppend(ax, b, x);
    WithoutAbsent(b, x);
    assert multiset(a)[x] == 0 && multiset(b)[x] == 0;
    assert multiset(ax + b) == multiset(a) + multiset{x} + multiset(b);
  }

  /** Filtering keeps the order of what it keeps: under a transitive
      comparator a sorted sequence stays sorted. */
  lemma {:induction false} WithoutKeepsSorted<T(!new)>(s: seq<T>, x: T, cmp: (T, T) -> int)
    requires Transitive(cmp)
    requires Sorted(s, cmp)
    ensures Sorted(Without(s, x), cmp)
  {
    SortedIsPairwise(s, cmp);
    WithoutKeepsPairwise(s, x, cmp);
    PairwiseIsSorted(Without(s, x), cmp);
  }

  lemma {:induction false} WithoutKeepsPairwise<T>(s: seq<T>, x: T, cmp: (T, T) -> int)
    requires PairwiseSorted(s, cmp)
    ensures PairwiseSorted(Without(s, x), cmp)
  {
    if s != [] {
      var t := s[1..];
      assert PairwiseSorted(t, cmp) by {
        forall i, j | 0 <= i < j < |t| ensures cmp(t[i], t[j]) <= 0 {
          assert t[i] == s[i + 1] && t[j] == s[j + 1];
        }
      }
      WithoutKeepsPairwise(t, x, cmp);
      if s[0] != x {
        var w := Without(t, x);
        var r := [s[0]] + w;
        forall i, j | 0 <= i < j < |r| ensures cmp(r[i], r[j]) <= 0 {
          if i == 0 {
            WithoutCounts(t, x);
            assert r[j] == w[j - 1];
            assert w[j - 1] in multiset(w);
            assert w[j - 1] in multiset(t);
            assert w[j - 1] in t;
            var m :| 0 <= m < |t| && t[m] == w[j - 1];
            assert cmp(s[0], s[m + 1]) <= 0;
          } else {
            assert r[i] == w[i - 1] && r[j] == w[j - 1];
          }
        }
      }
    }
  }
}
