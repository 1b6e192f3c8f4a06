/** Where libpriqueue.c departs from its own documentation, shown on concrete
    queues of integers ordered ascending, and in general. */
module Findings {
  import opened Ordering
  import opened Chains
  import opened Results
  import opened PriQueue
  import opened Scenarios

  /** Offering 5, 3, 8 to an empty queue: the documented offer reports the
      indices 0, 0, 2, but the offer as written reports 3 for the last one,
      which is the new size and not an index of the queue at all. */
  lemma OfferTailReturnsSize(q0: PriQueue<int>)
    requires Holds(q0, [])
    ensures var q1 := Offer(q0, 5).queue;
            var q2 := Offer(q1, 3).queue;
            && Offer(q2, 8).ret == 2
            && OfferAsWritten(q2, 8).ret == 3
            && |View(OfferAsWritten(q2, 8).queue)| == 3
  {
    BuildThreeFiveEight(q0);
    var q2 := Offer(Offer(q0, 5).queue, 3).queue;
    assert View(q2) == [3, 5];
    assert Ascending(3, 8) <= 0 && Ascending(5, 8) <= 0;
  }

  /** In general: whenever the new element goes to the tail of a non-empty
      queue, the offer as written returns a position past the last element,
      where the documented offer returns the last position. */
  lemma OfferAsWrittenMissesIndex<T>(q: PriQueue<T>, x: T)
    requires Valid(q) && View(q) != []
    requires forall i :: 0 <= i < |View(q)| ==> q.comparer(View(q)[i], x) <= 0
    ensures OfferAsWritten(q, x).ret == |View(OfferAsWritten(q, x).queue)|
    ensures Offer(q, x).ret == |View(q)|
    ensures View(Offer(q, x).queue)[Offer(q, x).ret] == x
  {
  }

  /** priqueue_remove_at(q, 0) on the queue [3, 5, 8] writes through the NULL
      `last`, where the documented behaviour removes and returns 3. */
  lemma RemoveAtZeroDereferencesNull(q: PriQueue<int>)
    requires Holds(q, [3, 5, 8])
    ensures RemoveAtAsWritten(q, 0) == NullDeref
    ensures RemoveAt(q, 0).ret == Some(3)
    ensures View(RemoveAt(q, 0).queue) == [5, 8]
  {
    assert View(q)[1..] == [5, 8];
  }

  /** In general the documented removal at index 0 is exactly a poll, while
      the removal as written never returns for index 0. */
  lemma RemoveAtZeroIsPoll<T>(q: PriQueue<T>)
    requires Valid(q) && View(q) != []
    ensures RemoveAtAsWritten(q, 0) == NullDeref
    ensures RemoveAt(q, 0) == Poll(q)
  {
    ElemsInjective(RemoveAt(q, 0).queue.root, Poll(q).queue.root);
  }

  /** priqueue_at(q, -1) on the queue [3, 5, 8] returns the front element 3,
      where the documented behaviour returns NULL; on an empty queue it
      dereferences the NULL root. */
  lemma AtNegativeIndexReturnsFront(q: PriQueue<int>, empty: PriQueue<int>)
    requires Holds(q, [3, 5, 8])
    requires Holds(empty, [])
    ensures AtAsWritten(q, -1) == Returns(Some(3))
    ensures At(q, -1) == None
    ensures AtAsWritten(empty, -1) == NullDeref
  {
  }
}
