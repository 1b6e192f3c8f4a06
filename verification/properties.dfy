/** What the queue promises across calls: insertion keeps the order, equal
    ranks stay in arrival order, removals keep the order, and any run of
    operations keeps both invariants and accounts for every node. */
module QueueProperties {
  import opened Ordering
  import opened Sequences
  import opened Chains
  import opened Results
  import opened PriQueue

  /** Inserting next to neighbours that do not rank after it (before) and
      that rank strictly after it (after) keeps a sorted sequence sorted. */
  lemma SpliceKeepsSorted<T(!new)>(s: seq<T>, x: T, cmp: (T, T) -> int, k: int)
    requires Antisymmetric(cmp)
    requires Sorted(s, cmp)
    requires IsInsertionPoint(s, x, cmp, k)
    ensures Sorted(s[..k] + [x] + s[k..], cmp)
  {
    var t := s[..k] + [x] + s[k..];
    forall i | 0 < i < |t| ensures cmp(t[i - 1], t[i]) <= 0 {
      if i < k {
        assert t[i - 1] == s[i - 1] && t[i] == s[i];
      } else if i == k {
        assert t[i - 1] == s[k - 1] && t[i] == x;
      } else if i == k + 1 {
        assert t[i - 1] == x && t[i] == s[k];
        assert cmp(s[k], x) > 0;
      } else {
        assert t[i - 1] == s[i - 2] && t[i] == s[i - 1];
      }
    }
  }

  /** priqueue_offer keeps the queue ordered, whatever the comparator's
      transitivity: only the sign flip is needed. */
  lemma OfferKeepsOrder<T(!new)>(q: PriQueue<T>, x: T)
    requires Valid(q) && Ordered(q)
    requires Antisymmetric(q.comparer)
    ensures Ordered(Offer(q, x).queue)
  {
    var r := Offer(q, x);
    SpliceKeepsSorted(View(q), x, q.comparer, r.ret);
  }

  /** Ties stay in arrival order: the new element lands after exactly those
      elements that do not rank after it, so it lands after every element
      of equal rank already queued, and before every element ranking after
      it. */
  lemma {:induction false} OfferLandsAfterNotGreater<T(!new)>(q: PriQueue<T>, x: T)
    requires Valid(q) && Ordered(q)
    requires Transitive(q.comparer)
    ensures forall i :: 0 <= i < |View(q)| ==>
              (i < Offer(q, x).ret <==> q.comparer(View(q)[i], x) <= 0)
  {
    var s, k, cmp := View(q), Offer(q, x).ret, q.comparer;
    SortedIsPairwise(s, cmp);
    forall i | 0 <= i < |s| && k <= i ensures cmp(s[i], x) > 0 {
      if i > k {
        assert cmp(s[k], s[i]) <= 0;
      }
    }
  }

  /** FIFO within a rank: offering `a` and then `b`, where `a` does not rank
      after `b` (in particular when they rank equal), leaves `a` in front of
      `b`, and `a` stays at the index its own offer reported. */
  lemma ArrivalOrderKept<T(!new)>(q: PriQueue<T>, a: T, b: T)
    requires Valid(q) && Ordered(q)
    requires Antisymmetric(q.comparer) && Transitive(q.comparer)
    requires q.comparer(a, b) <= 0
    ensures var r1 := Offer(q, a);
            var r2 := Offer(r1.queue, b);
            && r1.ret < r2.ret
            && View(r2.queue)[r1.ret] == a
            && View(r2.queue)[r2.ret] == b
  {
    var r1 := Offer(q, a);
    OfferKeepsOrder(q, a);
    OfferLandsAfterNotGreater(r1.queue, b);
    assert View(r1.queue)[r1.ret] == a;
  }

  /** Offering into an empty queue and polling straight away hands the same
      element back and leaves the queue empty again. */
  lemma OfferThenPollEmpty<T>(cmp: (T, T) -> int, x: T)
    ensures var r := Offer(Init(cmp), x);
            var p := Poll(r.queue);
            && r.ret == 0
            && p.ret == Some(x)
            && View(p.queue) == []
  {
  }

  /** Removing at the index the offer reported undoes the offer: it hands
      back the offered element and restores every other element in place. */
  lemma OfferThenRemoveAtUndoes<T>(q: PriQueue<T>, x: T)
    requires Valid(q)
    ensures var r := Offer(q, x);
            var d := RemoveAt(r.queue, r.ret);
            && d.ret == Some(x)
            && d.queue.size == q.size
            && View(d.queue) == View(q)
  {
    var r := Offer(q, x);
    var d := RemoveAt(r.queue, r.ret);
    SpliceThenCut(View(q), x, r.ret, View(r.queue), View(d.queue));
  }

  /** Cutting out again the element just spliced in restores the sequence. */
  lemma SpliceThenCut<T>(s: seq<T>, x: T, k: int, t: seq<T>, u: seq<T>)
    requires 0 <= k <= |s|
    requires t == s[..k] + [x] + s[k..]
    requires u == t[..k] + t[k + 1..]
    ensures t[k] == x && u == s
  {
    assert t[..k] == s[..k] && t[k + 1..] == s[k..];
    assert s[..k] + s[k..] == s;
  }

  /** Removing by identity an element that was not queued before its offer
      undoes the offer, and finds exactly that one node. */
  lemma OfferThenRemoveUndoes<T>(q: PriQueue<T>, x: T)
    requires Valid(q)
    requires x !in View(q)
    ensures var r := Offer(q, x);
            var d := Remove(r.queue, x);
            && d.ret == 1
            && View(d.queue) == View(q)
  {
    var r := Offer(q, x);
    var s, k := View(q), r.ret;
    assert s[..k] + s[k..] == s;
    WithoutSplice(s[..k], x, s[k..]);
  }

  /** Peek and poll agree on the front element, and peek is positional
      access at index 0. */
  lemma PeekAgrees<T>(q: PriQueue<T>)
    requires Valid(q)
    ensures Peek(q) == Poll(q).ret == At(q, 0)
  {
  }

  /** Polling keeps the queue ordered. */
  lemma PollKeepsOrder<T>(q: PriQueue<T>)
    requires Valid(q) && Ordered(q)
    ensures Ordered(Poll(q).queue)
  {
    var s := View(q);
    if s != [] {
      var t := View(Poll(q).queue);
      forall i | 0 < i < |t| ensures q.comparer(t[i - 1], t[i]) <= 0 {
        assert t[i - 1] == s[i] && t[i] == s[i + 1];
      }
    }
  }

  /** Removal by identity keeps the queue ordered. */
  lemma RemoveKeepsOrder<T(!new)>(q: PriQueue<T>, ptr: T)
    requires Valid(q) && Ordered(q)
    requires Transitive(q.comparer)
    ensures Ordered(Remove(q, ptr).queue)
  {
    WithoutKeepsSorted(View(q), ptr, q.comparer);
  }

  /** Removing again what was just removed finds nothing and changes nothing. */
  lemma RemoveIdempotent<T>(q: PriQueue<T>, ptr: T)
    requires Valid(q)
    ensures var r1 := Remove(q, ptr);
            var r2 := Remove(r1.queue, ptr);
            && r2.ret == 0
            && r2.queue == r1.queue
  {
    var r1 := Remove(q, ptr);
    var r2 := Remove(r1.queue, ptr);
    WithoutAbsent(View(r1.queue), ptr);
    ElemsInjective(r2.queue.root, r1.queue.root);
  }

  /** Removal at an index keeps the queue ordered. */
  lemma RemoveAtKeepsOrder<T(!new)>(q: PriQueue<T>, index: int)
    requires Valid(q) && Ordered(q)
    requires Transitive(q.comparer)
    ensures Ordered(RemoveAt(q, index).queue)
  {
    var s := View(q);
    if 0 <= index < |s| {
      var t := View(RemoveAt(q, index).queue);
      SortedIsPairwise(s, q.comparer);
      forall i | 0 < i < |t| ensures q.comparer(t[i - 1], t[i]) <= 0 {
        if i < index {
          assert t[i - 1] == s[i - 1] && t[i] == s[i];
        } else if i == index {
          assert t[i - 1] == s[i - 1] && t[i] == s[i + 1];
        } else {
          assert t[i - 1] == s[i] && t[i] == s[i + 1];
        }
      }
    }
  }

  /** Removal at an index moves every later element one place forward, and
      leaves the earlier ones where they were. */
  lemma RemoveAtShifts<T>(q: PriQueue<T>, index: int, j: int)
    requires Valid(q)
    requires 0 <= index < |View(q)|
    ensures j < index ==> At(RemoveAt(q, index).queue, j) == At(q, j)
    ensures index <= j ==> At(RemoveAt(q, index).queue, j) == At(q, j + 1)
  {
  }

  /** One call on the queue, as a host program would issue it. */
  datatype Op<T> =
    | OfferOp(x: T)
    | PeekOp
    | PollOp
    | AtOp(index: int)
    | RemoveOp(ptr: T)
    | RemoveAtOp(index: int)
    | SizeOp

  /** The queue after one call, with the number of nodes the call created
      and the number it destroyed. Read-only calls change nothing. */
  function Step<T(==)>(q: PriQueue<T>, op: Op<T>): (r: (PriQueue<T>, nat, nat))
    requires Valid(q)
    ensures Valid(r.0) && r.0.comparer == q.comparer
    ensures r.0.size == q.size + r.1 - r.2
  {
    match op
    case OfferOp(x) => (Offer(q, x).queue, 1, 0)
    case PeekOp => (q, 0, 0)
    case PollOp =>
      var r := Poll(q);
      (r.queue, 0, if r.ret.Some? then 1 else 0)
    case AtOp(_) => (q, 0, 0)
    case RemoveOp(ptr) =>
      var r := Remove(q, ptr);
      (r.queue, 0, r.ret)
    case RemoveAtOp(index) =>
      var r := RemoveAt(q, index);
      (r.queue, 0, if r.ret.Some? then 1 else 0)
    case SizeOp => (q, 0, 0)
  }

  /** Each call keeps the order under a total-preorder comparator. */
  lemma StepKeepsOrder<T(!new)>(q: PriQueue<T>, op: Op<T>)
    requires Valid(q) && Ordered(q)
    requires TotalPreorder(q.comparer)
    ensures Ordered(Step(q, op).0)
  {
    match op
    case OfferOp(x) => OfferKeepsOrder(q, x);
    case PollOp => PollKeepsOrder(q);
    case RemoveOp(ptr) => RemoveKeepsOrder(q, ptr);
    case RemoveAtOp(index) => RemoveAtKeepsOrder(q, index);
    case _ =>
  }

  /** The queue after a run of calls, with the total nodes created and
      destroyed along the way. */
  function Run<T(==)>(q: PriQueue<T>, ops: seq<Op<T>>): (r: (PriQueue<T>, nat, nat))
    requires Valid(q)
    ensures Valid(r.0) && r.0.comparer == q.comparer
    ensures r.0.size == q.size + r.1 - r.2
    decreases |ops|
  {
    if ops == [] then (q, 0, 0)
    else
      var (q1, i1, d1) := Step(q, ops[0]);
      var (q2, i2, d2) := Run(q1, ops[1..]);
      (q2, i1 + i2, d1 + d2)
  }

  /** After any run of calls on an ordered queue with a total-preorder
      comparator, the queue is still ordered, and its size is the starting
      size plus every insertion minus every successful removal. */
  lemma {:induction false} RunKeepsInvariants<T(!new)>(q: PriQueue<T>, ops: seq<Op<T>>)
    requires Valid(q) && Ordered(q)
    requires TotalPreorder(q.comparer)
    ensures var (q', inserted, removed) := Run(q, ops);
            && Ordered(q')
            && q'.size == q.size + inserted - removed
            && |View(q')| == q'.size
    decreases |ops|
  {
    if ops != [] {
      StepKeepsOrder(q, ops[0]);
      var (q1, _, _) := Step(q, ops[0]);
      RunKeepsInvariants(q1, ops[1..]);
    }
  }
}
