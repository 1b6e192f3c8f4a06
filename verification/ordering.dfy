/** Properties of the caller-supplied three-way comparator, and what it means
    for a sequence of elements to be ordered by it.

    The queue only ever asks whether `cmp(a, b) > 0`, that is whether `a`
    ranks strictly after `b`. The assumptions below are the ones a standard
    three-way comparator satisfies; the lemmas say which of them each
    property of the queue actually relies on.
 */
module Ordering {

  /** Swapping the arguments flips the sign of the answer. */
  ghost predicate Antisymmetric<T(!new)>(cmp: (T, T) -> int) {
    forall a, b :: cmp(a, b) > 0 <==> cmp(b, a) < 0
  }

  /** "Does not rank after" is transitive. */
  ghost predicate Transitive<T(!new)>(cmp: (T, T) -> int) {
    forall a, b, c :: cmp(a, b) <= 0 && cmp(b, c) <= 0 ==> cmp(a, c) <= 0
  }

  /** Every element ranks equal to itself. */
  ghost predicate ReflexiveZero<T(!new)>(cmp: (T, T) -> int) {
    forall a :: cmp(a, a) == 0
  }

  /** The comparator is a total preorder, as a three-way comparator should be. */
  ghost predicate TotalPreorder<T(!new)>(cmp: (T, T) -> int) {
    && ReflexiveZero(cmp)
    && Antisymmetric(cmp)
    && Transitive(cmp)
  }

  /** Every element is not strictly greater than its successor. */
  predicate Sorted<T>(s: seq<T>, cmp: (T, T) -> int) {
    forall i :: 0 < i < |s| ==> cmp(s[i - 1], s[i]) <= 0
  }

  /** Every element is not strictly greater than any element after it. */
  predicate PairwiseSorted<T>(s: seq<T>, cmp: (T, T) -> int) {
    forall i, j :: 0 <= i < j < |s| ==> cmp(s[i], s[j]) <= 0
  }

  /** `k` is where an ordered insertion of `x` into `s` stops: every element
      before `k` does not rank after `x`, and the element at `k`, if any,
      ranks strictly after `x`. */
  predicate IsInsertionPoint<T>(s: seq<T>, x: T, cmp: (T, T) -> int, k: int) {
    && 0 <= k <= |s|
    && (forall i :: 0 <= i < k ==> cmp(s[i], x) <= 0)
    && (k < |s| ==> cmp(s[k], x) > 0)
  }

  /** An insertion that passes `e`, which does not rank after `x`, stops one
      place further on in `[e] + s` than it does in `s`. */
  lemma InsertionPointStep<T>(e: T, s: seq<T>, x: T, cmp: (T, T) -> int, k: int)
    requires cmp(e, x) <= 0
    requires IsInsertionPoint(s, x, cmp, k)
    ensures IsInsertionPoint([e] + s, x, cmp, k + 1)
    ensures [e] + (s[..k] + [x] + s[k..]) == ([e] + s)[..k + 1] + [x] + ([e] + s)[k + 1..]
  {
    var t := [e] + s;
    assert t[..k + 1] == [e] + s[..k];
    assert t[k + 1..] == s[k..];
    forall i | 0 <= i < k + 1 ensures cmp(t[i], x) <= 0 {
      if i > 0 {
        assert t[i] == s[i - 1];
      }
    }
  }

  /** An ordered insertion has only one place to stop. */
  lemma InsertionPointUnique<T>(s: seq<T>, x: T, cmp: (T, T) -> int, k1: int, k2: int)
    requires IsInsertionPoint(s, x, cmp, k1)
    requires IsInsertionPoint(s, x, cmp, k2)
    ensures k1 == k2
  {
  }

  /** Under a transitive comparator, a sequence sorted pair by adjacent pair
      is sorted pair by pair. */
  lemma {:induction false} SortedIsPairwise<T(!new)>(s: seq<T>, cmp: (T, T) -> int)
    requires Transitive(cmp)
    requires Sorted(s, cmp)
    ensures PairwiseSorted(s, cmp)
  {
    if |s| > 1 {
      var t := s[1..];
      assert Sorted(t, cmp) by {
        forall i | 0 < i < |t| ensures cmp(t[i - 1], t[i]) <= 0 {
          assert t[i - 1] == s[i] && t[i] == s[i + 1];
        }
      }
      SortedIsPairwise(t, cmp);
      forall i, j | 0 <= i < j < |s| ensures cmp(s[i], s[j]) <= 0 {
        if i > 0 {
          assert s[i] == t[i - 1] && s[j] == t[j - 1];
        } else if j > 1 {
          assert cmp(s[0], s[1]) <= 0;
          assert s[1] == t[0] && s[j] == t[j - 1];
        }
      }
    }
  }

  /** Pairwise sorted is the stronger form: it implies adjacent sortedness. */
  lemma PairwiseIsSorted<T>(s: seq<T>, cmp: (T, T) -> int)
    requires PairwiseSorted(s, cmp)
    ensures Sorted(s, cmp)
  {
    forall i | 0 < i < |s| ensures cmp(s[i - 1], s[i]) <= 0 {
      assert 0 <= i - 1 < i < |s|;
    }
  }
}
