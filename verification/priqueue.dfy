/** The priority queue of libpriqueue.c as pure functions: every operation
    takes the queue and returns the queue afterwards together with what the C
    function returns. Each operation walks the node chain the way the C loop
    does, and its contract says what that walk means for the sequence of
    elements the chain stands for (`View`).

    Where the C code departs from its own documentation, the departure is
    modelled by an `...AsWritten` function, and the function without that
    suffix is the documented behaviour, which the rest of the model uses. */
module PriQueue {
  import opened Ordering
  import opened Sequences
  import opened Chains
  import opened Results

  /** priqueue_t: the first node, the number of nodes, and the comparator
      fixed at initialisation. */
  datatype PriQueue<!T> = PriQueue(root: Chain<T>, size: int, comparer: (T, T) -> int)

  /** A call's effect: the queue afterwards and the value the call returns. */
  datatype Updated<!T, R> = Updated(queue: PriQueue<T>, ret: R)

  /** The invariant every operation relies on and keeps: `size` is the number
      of nodes reachable from `root`. */
  predicate Valid<T>(q: PriQueue<T>) {
    q.size == Length(q.root)
  }

  /** The elements held by the queue, front first. */
  function View<T>(q: PriQueue<T>): seq<T> {
    Elems(q.root)
  }

  /** The ordering invariant: no element ranks strictly after its successor. */
  predicate Ordered<T>(q: PriQueue<T>) {
    Sorted(View(q), q.comparer)
  }

  /** priqueue_init: an empty queue that will order by `cmp`. */
  function Init<T>(cmp: (T, T) -> int): (q: PriQueue<T>)
    ensures Valid(q) && Ordered(q)
    ensures View(q) == [] && q.comparer == cmp
  {
    PriQueue(Nil, 0, cmp)
  }

  /** The state in which the insertion loop of priqueue_offer stops: the
      relinked chain, the loop's `counter`, and whether the loop ran off the
      end (so that the node was appended after `last`). */
  datatype Scan<T> = Scan(chain: Chain<T>, counter: int, atTail: bool)

  /** The insertion loop of priqueue_offer from node `now`, which sits at
      position `counter`. The C loop is bounded by `counter < q->size`; on a
      valid queue that is the same as stopping at the end of the chain. */
  function OfferScan<T>(now: Chain<T>, x: T, cmp: (T, T) -> int, counter: int): (r: Scan<T>)
    ensures Length(r.chain) == Length(now) + 1
    ensures IsInsertionPoint(Elems(now), x, cmp, r.counter - counter)
    ensures Elems(r.chain) == Elems(now)[..r.counter - counter] + [x] + Elems(now)[r.counter - counter..]
    ensures r.atTail <==> r.counter - counter == Length(now)
    decreases now
  {
    match now
    case Nil => Scan(Node(x, Nil), counter, true)
    case Node(e, next) =>
      if cmp(e, x) > 0 then Scan(Node(x, now), counter, false)
      else
        var s := OfferScan(next, x, cmp, counter + 1);
        InsertionPointStep(e, Elems(next), x, cmp, s.counter - (counter + 1));
        Scan(Node(e, s.chain), s.counter, s.atTail)
  }

  /** priqueue_offer as documented: `x` goes before the first element that
      ranks strictly after it, or at the end, and the call returns the
      zero-based index where `x` now sits. */
  function Offer<T>(q: PriQueue<T>, x: T): (r: Updated<T, int>)
    requires Valid(q)
    ensures Valid(r.queue) && r.queue.comparer == q.comparer
    ensures r.queue.size == q.size + 1
    ensures 0 <= r.ret < |View(r.queue)| && View(r.queue)[r.ret] == x
    ensures IsInsertionPoint(View(q), x, q.comparer, r.ret)
    ensures View(r.queue) == View(q)[..r.ret] + [x] + View(q)[r.ret..]
  {
    if q.root == Nil then
      Updated(PriQueue(Node(x, Nil), q.size + 1, q.comparer), 0)
    else
      var s := OfferScan(q.root, x, q.comparer, 0);
      Updated(PriQueue(s.chain, q.size + 1, q.comparer), s.counter)
  }

  /** priqueue_offer as written: when the loop runs off the end of a
      non-empty queue, `counter` already equals the old size and is
      incremented once more before it is returned, so the call returns the
      new size, one past the index where `x` was stored. Every other path
      returns what the documented version returns. */
  function OfferAsWritten<T>(q: PriQueue<T>, x: T): (r: Updated<T, int>)
    requires Valid(q)
    ensures r.queue == Offer(q, x).queue
    ensures q.size > 0 && (forall i :: 0 <= i < q.size ==> q.comparer(View(q)[i], x) <= 0) ==>
              r.ret == q.size + 1 == |View(r.queue)|
    ensures !(q.size > 0 && (forall i :: 0 <= i < q.size ==> q.comparer(View(q)[i], x) <= 0)) ==>
              r.ret == Offer(q, x).ret
  {
    if q.root == Nil then
      Updated(PriQueue(Node(x, Nil), q.size + 1, q.comparer), 0)
    else
      var s := OfferScan(q.root, x, q.comparer, 0);
      Updated(PriQueue(s.chain, q.size + 1, q.comparer), if s.atTail then s.counter + 1 else s.counter)
  }

  /** priqueue_peek: the front element, or NULL when the queue is empty. */
  function Peek<T>(q: PriQueue<T>): (r: Option<T>)
    requires Valid(q)
    ensures r.None? <==> View(q) == []
    ensures r.Some? ==> r.value == View(q)[0]
  {
    if q.size == 0 then None else Some(q.root.content)
  }

  /** priqueue_poll: removes and returns the front element; an empty queue
      is left as it is and NULL is returned. */
  function Poll<T>(q: PriQueue<T>): (r: Updated<T, Option<T>>)
    requires Valid(q)
    ensures Valid(r.queue) && r.queue.comparer == q.comparer
    ensures View(q) == [] ==> r.ret == None && r.queue == q
    ensures View(q) != [] ==>
              && r.ret == Some(View(q)[0])
              && View(r.queue) == View(q)[1..]
              && r.queue.size == q.size - 1
  {
    if q.size == 0 then Updated(q, None)
    else Updated(PriQueue(q.root.next, q.size - 1, q.comparer), Some(q.root.content))
  }

  /** priqueue_at as documented: the element at zero-based `index`, or NULL
      when the queue has no such element. */
  function At<T>(q: PriQueue<T>, index: int): (r: Option<T>)
    requires Valid(q)
    ensures 0 <= index < |View(q)| ==> r == Some(View(q)[index])
    ensures !(0 <= index < |View(q)|) ==> r == None
  {
    if index < 0 || index >= q.size then None else Some(Nth(q.root, index))
  }

  /** priqueue_at as written: only `index >= q->size` is refused. A negative
      index makes the walk take no step, so the call returns the front
      element, or dereferences the NULL root of an empty queue. */
  function AtAsWritten<T>(q: PriQueue<T>, index: int): (r: Outcome<Option<T>>)
    requires Valid(q)
    ensures 0 <= index ==> r == Returns(At(q, index))
    ensures index < 0 && View(q) != [] ==> r == Returns(Some(View(q)[0]))
    ensures index < 0 && View(q) == [] ==> r == NullDeref
  {
    if index >= q.size then Returns(None)
    else if q.root == Nil then NullDeref
    else Returns(Some(Nth(q.root, if index < 0 then 0 else index)))
  }

  /** The removal loop of priqueue_remove from node `now`: nodes holding
      `ptr` are unlinked and counted, the others are kept in order. The C
      loop runs once per node, bounded by the size before the removal. */
  function RemoveScan<T(==)>(now: Chain<T>, ptr: T): (r: (Chain<T>, int))
    ensures Length(r.0) + r.1 == Length(now)
    ensures Elems(r.0) == Without(Elems(now), ptr)
    ensures r.1 == multiset(Elems(now))[ptr]
  {
    match now
    case Nil => (Nil, 0)
    case Node(e, next) =>
      var (rest, counter) := RemoveScan(next, ptr);
      if e == ptr then (rest, counter + 1) else (Node(e, rest), counter)
  }

  /** priqueue_remove: unlinks every node whose element is identical to
      `ptr` and returns how many there were; the comparator is not used. */
  function Remove<T(==)>(q: PriQueue<T>, ptr: T): (r: Updated<T, int>)
    requires Valid(q)
    ensures Valid(r.queue) && r.queue.comparer == q.comparer
    ensures View(r.queue) == Without(View(q), ptr)
    ensures r.ret == multiset(View(q))[ptr]
    ensures r.queue.size == q.size - r.ret
  {
    var (root, counter) := RemoveScan(q.root, ptr);
    Updated(PriQueue(root, q.size - counter, q.comparer), counter)
  }

  /** The relinking of priqueue_remove_at: walk `last` to the node before
      position `index` and point it past the node at `index`. */
  function Unlink<T>(c: Chain<T>, index: int): (r: Chain<T>)
    requires 0 < index < Length(c)
    ensures Length(r) == Length(c) - 1
    ensures Elems(r) == Elems(c)[..index] + Elems(c)[index + 1..]
  {
    assert Length(c.next) == Length(c) - 1;
    if index == 1 then Node(c.content, c.next.next)
    else Node(c.content, Unlink(c.next, index - 1))
  }

  /** priqueue_remove_at as documented: removes and returns the element at
      zero-based `index`; an index the queue does not hold leaves the queue
      as it is and returns NULL. */
  function RemoveAt<T>(q: PriQueue<T>, index: int): (r: Updated<T, Option<T>>)
    requires Valid(q)
    ensures Valid(r.queue) && r.queue.comparer == q.comparer
    ensures !(0 <= index < |View(q)|) ==> r.ret == None && r.queue == q
    ensures 0 <= index < |View(q)| ==>
              && r.ret == Some(View(q)[index])
              && View(r.queue) == View(q)[..index] + View(q)[index + 1..]
              && r.queue.size == q.size - 1
  {
    if index < 0 || index >= q.size then Updated(q, None)
    else if index == 0 then Updated(PriQueue(q.root.next, q.size - 1, q.comparer), Some(q.root.content))
    else Updated(PriQueue(Unlink(q.root, index), q.size - 1, q.comparer), Some(Nth(q.root, index)))
  }

  /** priqueue_remove_at as written: for an index below `q->size` the walk
      leaves `last` NULL unless it takes at least one step, and
      `last->next` is then written; so index 0, and every negative index,
      dereferences NULL. Positive indices behave as documented. */
  function RemoveAtAsWritten<T>(q: PriQueue<T>, index: int): (r: Outcome<Updated<T, Option<T>>>)
    requires Valid(q)
    ensures index >= |View(q)| ==> r == Returns(Updated(q, None))
    ensures index <= 0 && index < |View(q)| ==> r == NullDeref
    ensures 0 < index < |View(q)| ==> r == Returns(RemoveAt(q, index))
  {
    if index >= q.size then Returns(Updated(q, None))
    else if index <= 0 then NullDeref
    else Returns(Updated(PriQueue(Unlink(q.root, index), q.size - 1, q.comparer), Some(Nth(q.root, index))))
  }

  /** priqueue_size: the stored count, which is the number of elements. */
  function Size<T>(q: PriQueue<T>): (n: int)
    requires Valid(q)
    ensures n == |View(q)|
  {
    q.size
  }
}
