/** Concrete runs of the queue on integers ordered ascending. Each run starts
    from any valid queue with the stated contents, such as the one `Init`
    returns for an empty start. */
module Scenarios {
  import opened Chains
  import opened Results
  import opened PriQueue

  /** Ascending order on integers, as a three-way comparator. */
  function Ascending(a: int, b: int): int {
    a - b
  }

  /** An ascending queue holding exactly `s`, front first. */
  ghost predicate Holds(q: PriQueue<int>, s: seq<int>) {
    Valid(q) && q.comparer == Ascending && View(q) == s
  }

  /** An offer stops at the one insertion point of the queue's contents. */
  lemma OfferStopsAt(q: PriQueue<int>, x: int, k: int)
    requires Valid(q)
    requires Ordering.IsInsertionPoint(View(q), x, q.comparer, k)
    ensures Offer(q, x).ret == k
    ensures View(Offer(q, x).queue) == View(q)[..k] + [x] + View(q)[k..]
  {
    Ordering.InsertionPointUnique(View(q), x, q.comparer, k, Offer(q, x).ret);
  }

  /** 5 offered to an empty queue goes to the front. */
  lemma OfferFiveToEmpty(q: PriQueue<int>)
    requires Holds(q, [])
    ensures Offer(q, 5).ret == 0 && Holds(Offer(q, 5).queue, [5])
  {
    OfferStopsAt(q, 5, 0);
  }

  /** 3 offered to [5] goes in front of the 5, which ranks after it. */
  lemma OfferThreeToFive(q: PriQueue<int>)
    requires Holds(q, [5])
    ensures Offer(q, 3).ret == 0 && Holds(Offer(q, 3).queue, [3, 5])
  {
    assert Ascending(5, 3) > 0;
    OfferStopsAt(q, 3, 0);
  }

  /** 8 offered to [3, 5] goes to the tail, at index 2. */
  lemma OfferEightToThreeFive(q: PriQueue<int>)
    requires Holds(q, [3, 5])
    ensures Offer(q, 8).ret == 2 && Holds(Offer(q, 8).queue, [3, 5, 8])
  {
    assert Ascending(3, 8) <= 0 && Ascending(5, 8) <= 0;
    OfferStopsAt(q, 8, 2);
  }

  /** Offering 5, 3 and 8 to an empty queue returns 0, 0 and 2 and builds
      [3, 5, 8]. */
  lemma BuildThreeFiveEight(q0: PriQueue<int>)
    requires Holds(q0, [])
    ensures var r1 := Offer(q0, 5);
            var r2 := Offer(r1.queue, 3);
            var r3 := Offer(r2.queue, 8);
            && r1.ret == 0 && r2.ret == 0 && r3.ret == 2
            && Holds(r3.queue, [3, 5, 8])
  {
    OfferFiveToEmpty(q0);
    OfferThreeToFive(Offer(q0, 5).queue);
    OfferEightToThreeFive(Offer(Offer(q0, 5).queue, 3).queue);
  }

  /** Offering an element of the same rank as the one queued puts it behind. */
  lemma EqualRankGoesBehind(q: PriQueue<int>)
    requires Holds(q, [5])
    ensures Offer(q, 5).ret == 1
    ensures View(Offer(q, 5).queue) == [5, 5]
  {
    assert Ascending(5, 5) <= 0;
  }

  /** [3, 5, 8] without 5 is [3, 8]. */
  lemma ThreeFiveEightWithoutFive()
    ensures Sequences.Without([3, 5, 8], 5) == [3, 8]
  {
    var s: seq<int> := [3, 5, 8];
    assert s[1..] == [5, 8] && s[1..][1..] == [8] && s[1..][1..][1..] == [];
  }

  /** Removing 5 from [3, 5, 8] by identity removes one node and leaves [3, 8]. */
  lemma RemoveFromThreeFiveEight(q: PriQueue<int>)
    requires Holds(q, [3, 5, 8])
    ensures Remove(q, 5).ret == 1
    ensures View(Remove(q, 5).queue) == [3, 8]
  {
    ThreeFiveEightWithoutFive();
    assert multiset([3, 5, 8])[5] == 1;
  }

  /** Polling an empty queue returns NULL and leaves it empty. */
  lemma PollEmpty(q: PriQueue<int>)
    requires Holds(q, [])
    ensures Poll(q).ret == None
    ensures Size(Poll(q).queue) == 0
  {
  }

  /** Removing index 1 of [3, 5, 8] returns 5, leaves [3, 8], and 8 moves to index 1. */
  lemma RemoveAtOneOfThreeFiveEight(q: PriQueue<int>)
    requires Holds(q, [3, 5, 8])
    ensures RemoveAt(q, 1).ret == Some(5)
    ensures View(RemoveAt(q, 1).queue) == [3, 8]
    ensures At(RemoveAt(q, 1).queue, 1) == Some(8)
  {
    var s := View(q);
    assert s[..1] + s[2..] == [3, 8];
  }
}
