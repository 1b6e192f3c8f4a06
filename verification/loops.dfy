/** The loops of libpriqueue.c written as loops, with the C variables
    `counter`/`i`, `now` and `last`, each proved to compute what the
    functional model in module PriQueue computes.

    The chain is an immutable value, so `last` is represented by `passed`,
    the contents of the nodes from `root` up to and including `last`
    (`last` is NULL exactly when `passed` is empty). Writing `last->next`
    becomes rebuilding those nodes in front of the new successor with `Link`;
    writing `q->root` is the same with no passed nodes. */
module PriQueueLoops {
  import opened Ordering
  import opened Sequences
  import opened Chains
  import opened Results
  import opened PriQueue

  /** Once the insertion loop has passed only elements that do not rank after
      `x` and stands at the end or at an element ranking after it, linking
      the new node there is what the functional offer does. */
  lemma OfferStopMatches<T>(q: PriQueue<T>, x: T, passed: seq<T>, now: Chain<T>)
    requires Valid(q)
    requires View(q) == passed + Elems(now)
    requires forall i :: 0 <= i < |passed| ==> q.comparer(passed[i], x) <= 0
    requires now.Node? ==> q.comparer(now.content, x) > 0
    ensures Offer(q, x).ret == |passed|
    ensures Offer(q, x).queue == PriQueue(Link(passed, Node(x, now)), q.size + 1, q.comparer)
  {
    var s, k, cmp := View(q), |passed|, q.comparer;
    var r := Offer(q, x);
    assert passed == s[..k] && Elems(now) == s[k..];
    assert IsInsertionPoint(s, x, cmp, k) by {
      forall i | 0 <= i < k ensures cmp(s[i], x) <= 0 {
        assert s[i] == passed[i];
      }
      if k < |s| {
        assert s[k] == now.content;
      }
    }
    InsertionPointUnique(s, x, cmp, k, r.ret);
    var c := Link(passed, Node(x, now));
    assert Elems(c) == passed + ([x] + Elems(now));
    assert Elems(c) == View(r.queue);
    ElemsInjective(c, r.queue.root);
  }

  /** priqueue_offer as written, loop for loop. */
  method OfferLoop<T>(q: PriQueue<T>, x: T) returns (q': PriQueue<T>, ret: int)
    requires Valid(q)
    ensures q' == OfferAsWritten(q, x).queue
    ensures ret == OfferAsWritten(q, x).ret
  {
    if q.root == Nil {
      OfferStopMatches(q, x, [], Nil);
      return PriQueue(Node(x, Nil), q.size + 1, q.comparer), 0;
    }
    var counter := 0;
    var now := q.root;
    var passed: seq<T> := [];
    while counter < q.size
      invariant 0 <= counter <= q.size
      invariant |passed| == counter
      invariant View(q) == passed + Elems(now)
      invariant Length(now) == q.size - counter
      invariant forall i :: 0 <= i < counter ==> q.comparer(passed[i], x) <= 0
    {
      if q.comparer(now.content, x) > 0 {
        // root = node, or last->next = node; then node->next = now
        OfferStopMatches(q, x, passed, now);
        return PriQueue(Link(passed, Node(x, now)), q.size + 1, q.comparer), counter;
      }
      passed := passed + [now.content];
      now := now.next;
      counter := counter + 1;
    }
    // last->next = node; counter++
    OfferStopMatches(q, x, passed, now);
    q' := PriQueue(Link(passed, Node(x, Nil)), q.size + 1, q.comparer);
    counter := counter + 1;
    ret := counter;
  }

  /** priqueue_at as written, loop for loop. */
  method AtLoop<T>(q: PriQueue<T>, index: int) returns (r: Outcome<Option<T>>)
    requires Valid(q)
    ensures r == AtAsWritten(q, index)
  {
    if index >= q.size {
      return Returns(None);
    }
    var now := q.root;
    var i := 0;
    while i < index
      invariant 0 <= i && (0 <= index ==> i <= index) && (index < 0 ==> i == 0)
      invariant Length(now) == q.size - i
      invariant Elems(now) == View(q)[i..]
    {
      now := now.next;
      i := i + 1;
    }
    if now == Nil {
      return NullDeref;
    }
    r := Returns(Some(now.content));
  }

  /** One more element scanned by the removal loop: it is either counted or
      kept. */
  lemma RemoveStep<T>(s: seq<T>, i: int, ptr: T)
    requires 0 <= i < |s|
    ensures Without(s[..i + 1], ptr) == Without(s[..i], ptr) + (if s[i] == ptr then [] else [s[i]])
    ensures multiset(s[..i + 1])[ptr] == multiset(s[..i])[ptr] + (if s[i] == ptr then 1 else 0)
  {
    assert s[..i + 1] == s[..i] + [s[i]];
    WithoutAppend(s[..i], [s[i]], ptr);
    assert [s[i]][1..] == [];
  }

  /** When the removal loop has scanned every node, the kept nodes and the
      count are what the functional removal produces. */
  lemma RemoveLoopExit<T>(q: PriQueue<T>, ptr: T, passed: seq<T>, now: Chain<T>, counter: int)
    requires Valid(q) && Length(now) == 0
    requires passed == Without(View(q), ptr)
    requires counter == multiset(View(q))[ptr]
    ensures Remove(q, ptr).ret == counter
    ensures Remove(q, ptr).queue == PriQueue(Link(passed, now), q.size - counter, q.comparer)
  {
    ElemsInjective(Link(passed, now), Remove(q, ptr).queue.root);
  }

  /** priqueue_remove, loop for loop: the loop runs `q->size` times, the size
      before any removal, and so visits every node exactly once. */
  method RemoveLoop<T(==)>(q: PriQueue<T>, ptr: T) returns (q': PriQueue<T>, removed: int)
    requires Valid(q)
    ensures q' == Remove(q, ptr).queue
    ensures removed == Remove(q, ptr).ret
  {
    ghost var s := View(q);
    var now := q.root;
    var passed: seq<T> := [];
    var counter := 0;
    var i := 0;
    while i < q.size
      invariant 0 <= i <= q.size
      invariant Length(now) == q.size - i
      invariant Elems(now) == s[i..]
      invariant passed == Without(s[..i], ptr)
      invariant counter == multiset(s[..i])[ptr]
    {
      assert now.content == s[i] && Elems(now.next) == s[i + 1..];
      RemoveStep(s, i, ptr);
      if now.content == ptr {
        // unlink `now`: root = now->next, or last->next = now->next
        now := now.next;
        counter := counter + 1;
      } else {
        passed := passed + [now.content];
        now := now.next;
      }
      i := i + 1;
    }
    assert s[..i] == s;
    RemoveLoopExit(q, ptr, passed, now, counter);
    q' := PriQueue(Link(passed, now), q.size - counter, q.comparer);
    removed := counter;
  }

  /** priqueue_remove_at as written, loop for loop. */
  method RemoveAtLoop<T>(q: PriQueue<T>, index: int) returns (r: Outcome<Updated<T, Option<T>>>)
    requires Valid(q)
    ensures r == RemoveAtAsWritten(q, index)
  {
    if index >= q.size {
      return Returns(Updated(q, None));
    }
    var now := q.root;
    var passed: seq<T> := [];
    var i := 0;
    while i < index
      invariant 0 <= i && (0 <= index ==> i <= index) && (index < 0 ==> i == 0)
      invariant |passed| == i
      invariant Length(now) == q.size - i
      invariant View(q) == passed + Elems(now)
    {
      passed := passed + [now.content];
      now := now.next;
      i := i + 1;
    }
    if now == Nil || passed == [] {
      // now->content or last->next through a NULL pointer
      return NullDeref;
    }
    var expected := RemoveAt(q, index);
    var q' := PriQueue(Link(passed, now.next), q.size - 1, q.comparer);
    assert passed == View(q)[..index] && Elems(now.next) == View(q)[index + 1..];
    ElemsInjective(q'.root, expected.queue.root);
    r := Returns(Updated(q', Some(now.content)));
  }
}
