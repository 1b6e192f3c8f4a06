# libpriqueue in Dafny

A model of `libpriqueue.c`, a priority queue kept as a sorted singly-linked
chain of nodes. Each node holds one opaque element reference. The order comes
from a comparator the caller supplies when the queue is initialised. The
queue supports these calls:

- insert (`priqueue_offer`), by a linear scan that stops at the first element
  ranking strictly after the new one;
- peek and poll of the front element;
- positional access (`priqueue_at`);
- removal of every node holding a given reference (`priqueue_remove`);
- positional removal (`priqueue_remove_at`);
- size.

Modules:

- `Ordering` (ordering.dfy): what the comparator is assumed to satisfy.
  `Antisymmetric` means the sign flips when the arguments swap. `Transitive`
  means "does not rank after" is transitive. `ReflexiveZero` means every
  element ranks equal to itself. Also sortedness, and `IsInsertionPoint`,
  the place where an ordered insertion stops.
- `Sequences` (sequences.dfy): `Without`, removal of every occurrence of a
  reference from a sequence, keeping the rest in order. This is the abstract
  meaning of `priqueue_remove`. The count removed is `multiset(s)[x]`.
- `Chains` (chains.dfy): the node chain as an acyclic datatype
  (`Nil | Node(content, next)`). `Length` counts the nodes; `Elems` is the
  sequence the chain stands for.
- `Results` (results.dfy): `Option` stands for an element reference or NULL.
  `Outcome` is a call that returns normally or dereferences NULL.
- `PriQueue` (priqueue.dfy): `priqueue_t` as `PriQueue(root, size, comparer)`,
  with one pure function per C function. Each walks the chain as the C loop
  does. Each contract relates the result to the queue's `View`, the sequence
  of its elements. The invariant carried throughout is `Valid`: `size` is the
  number of nodes reachable from `root`. Where the code departs from its own
  doc comments there are two functions. `...AsWritten` follows the code. The
  function without the suffix follows the doc comment, and the rest of the
  model uses it.
- `PriQueueLoops` (loops.dfy): the C loops written as loops, with `counter`,
  `now` and `last`. Each is proved to return exactly what the functional
  as-written model returns.
- `QueueProperties` (properties.dfy): properties across calls. Offer keeps
  the order. Ties keep arrival order. Offer is undone by removal. Every
  removal keeps the order. Any run of calls keeps both invariants, and the
  size changes by inserts minus successful removals.
- `Scenarios` and `Findings` (scenarios.dfy, findings.dfy): concrete runs on
  integers ordered ascending, and the departures from the documentation.

The comparator is a total function parameter `(T, T) -> int`. Elements are a
generic type whose `==` stands for pointer identity. The comparator is only
assumed to be well behaved where a lemma needs it. Insertion keeps the order
under `Antisymmetric` alone. Removals, and the claim that ties stay in
arrival order, also need `Transitive`.

## Model

| member | source | states |
|---|---|---|
| PriQueue.Init | libpriqueue.c:21-26 | A fresh queue is valid, ordered and empty, and it keeps the given comparator. |
| PriQueue.OfferScan | libpriqueue.c:50-79 | The insertion loop stops at the insertion point: every element it passes does not rank after `x`, and the element it stops at ranks strictly after `x`. The relinked chain is the old one with `x` spliced in there. It reports running off the end exactly when the stop is past the last node. |
| PriQueue.Offer | libpriqueue.c:29-84 | Offer as documented. The queue stays valid and grows by exactly one node. The returned index is the insertion point. The new sequence is the old one with `x` spliced in at that index, with every other element unchanged and in the same relative order. |
| PriQueue.OfferAsWritten | libpriqueue.c:36-85 | Offer as coded. The queue afterwards is the documented one. When `x` goes to the tail of a non-empty queue (no element ranks after it), the return value is old size + 1, which is the new length and not an index. Otherwise it returns the documented index, including 0 for an empty queue. |
| PriQueue.Peek | libpriqueue.c:90-104 | NULL exactly when the queue is empty; otherwise the front element. |
| PriQueue.Poll | libpriqueue.c:107-127 | On an empty queue: returns NULL and the queue is unchanged. Otherwise: returns the front element, leaves the rest of the sequence, and the size drops by one. Validity is kept. |
| PriQueue.At | libpriqueue.c:130-150 | As documented: the element at a zero-based index inside the queue, NULL for any index outside it. |
| PriQueue.AtAsWritten | libpriqueue.c:139-150 | As coded: a non-negative index behaves as documented. A negative index returns the front element of a non-empty queue, and dereferences NULL on an empty one. |
| PriQueue.RemoveScan | libpriqueue.c:164-183 | The removal loop keeps the chain filtered to nodes not holding `ptr`, in order. It counts the occurrences of `ptr`. |
| PriQueue.Remove | libpriqueue.c:153-187 | The new sequence is the old one without `ptr`, with the others in their order. The return value is the number of occurrences of `ptr`. The size drops by that number. Validity is kept. |
| PriQueue.Unlink | libpriqueue.c:204-213 | Pointing the predecessor of position `index` past it removes exactly that element from the sequence. |
| PriQueue.RemoveAt | libpriqueue.c:190-218 | As documented. An index outside the queue returns NULL and leaves the queue unchanged. An index inside returns the old element there, and the sequence loses exactly that element. The size drops by one. |
| PriQueue.RemoveAtAsWritten | libpriqueue.c:199-218 | As coded. An index at or past the size returns NULL and changes nothing. Index 0, or any negative index below the size, dereferences NULL. A positive index inside the queue behaves as documented. |
| PriQueue.Size | libpriqueue.c:227-230 | The stored count equals the number of elements. |
| PriQueueLoops.OfferLoop | libpriqueue.c:36-87 | The C loop, with `counter`, `now` and `last`, yields the same queue and the same return value as the functional as-written offer. |
| PriQueueLoops.AtLoop | libpriqueue.c:139-150 | The walk of `priqueue_at` returns what the as-written model says, including the NULL dereference. |
| PriQueueLoops.RemoveLoop | libpriqueue.c:162-187 | The loop bounded by the pre-removal size visits every node once. It yields the functional removal's queue and count. |
| PriQueueLoops.RemoveAtLoop | libpriqueue.c:199-218 | The walk and relink of `priqueue_remove_at` gives the as-written model's outcome, including the NULL dereference at index 0. |
| QueueProperties.OfferKeepsOrder | libpriqueue.c:55-84 | Under an antisymmetric comparator, offering into an ordered queue leaves it ordered. |
| QueueProperties.OfferLandsAfterNotGreater | libpriqueue.c:57-78 | Under a transitive comparator on an ordered queue, the new element lands after exactly those elements that do not rank after it. So it goes behind every element of equal rank. |
| QueueProperties.ArrivalOrderKept | libpriqueue.c:57-78 | Offering `a` and then `b` with `a` not ranking after `b` leaves `a` in front of `b`, at the index its own offer reported. This is FIFO within a rank. |
| QueueProperties.OfferThenPollEmpty | libpriqueue.c:42-46 | Offering into an empty queue returns 0. Polling straight away returns the same element and leaves the queue empty. |
| QueueProperties.OfferThenRemoveAtUndoes | libpriqueue.c:199-218 | Removing at the index an offer reported hands back the offered element and restores the old sequence and size. |
| QueueProperties.OfferThenRemoveUndoes | libpriqueue.c:162-187 | Removing by identity an element that was not queued before it was offered removes exactly one node and restores the old sequence. |
| QueueProperties.PeekAgrees | libpriqueue.c:98-126 | Peek, the value poll returns, and positional access at 0 agree. |
| QueueProperties.PollKeepsOrder | libpriqueue.c:115-127 | Polling an ordered queue leaves it ordered. |
| QueueProperties.RemoveKeepsOrder | libpriqueue.c:162-187 | Under a transitive comparator, removal by identity leaves an ordered queue ordered. |
| QueueProperties.RemoveIdempotent | libpriqueue.c:162-187 | Removing the same reference a second time finds nothing and leaves the queue as it is. |
| QueueProperties.RemoveAtKeepsOrder | libpriqueue.c:199-218 | Under a transitive comparator, removal at an index leaves an ordered queue ordered. |
| QueueProperties.RemoveAtShifts | libpriqueue.c:190-192 | After removal at `index`, earlier positions hold what they held, and each later position holds what was one place further back. |
| QueueProperties.Step | libpriqueue.c:36-230 | One call of any kind keeps the queue valid and its comparator. The size changes by the nodes it created minus the nodes it destroyed. |
| QueueProperties.StepKeepsOrder | libpriqueue.c:36-230 | Under a total-preorder comparator, one call of any kind keeps an ordered queue ordered. |
| QueueProperties.RunKeepsInvariants | libpriqueue.c:36-230 | After any run of calls, the queue is still ordered and valid. Its size is the starting size plus every insertion minus every successful removal. |
| Scenarios.OfferStopsAt | libpriqueue.c:57-84 | An offer returns the queue's one insertion point for `x` and splices `x` in there. |
| Scenarios.OfferFiveToEmpty | libpriqueue.c:42-46 | 5 offered to an empty ascending queue is stored at index 0, giving [5]. |
| Scenarios.OfferThreeToFive | libpriqueue.c:57-71 | 3 offered to [5] stops at the 5, which ranks after it, and goes to the front: [3, 5]. |
| Scenarios.OfferEightToThreeFive | libpriqueue.c:57-84 | 8 offered to [3, 5] runs past both elements and goes to the tail, at index 2: [3, 5, 8]. |
| Scenarios.BuildThreeFiveEight | libpriqueue.c:36-85 | Offering 5, 3 and 8 to any empty ascending queue reports the indices 0, 0 and 2 and gives the sequence [3, 5, 8]. |
| Sequences.WithoutCounts | libpriqueue.c:169-183 | Removing every node holding `x` drops exactly its occurrences: every other element keeps its count, and the length falls by the number of occurrences. |
| Scenarios.EqualRankGoesBehind | libpriqueue.c:57-78 | A second 5 offered to an ascending queue holding [5] goes to index 1, behind the first. |
| Scenarios.RemoveFromThreeFiveEight | libpriqueue.c:162-187 | Removing 5 from [3, 5, 8] returns 1 and leaves [3, 8]. |
| Scenarios.PollEmpty | libpriqueue.c:115-118 | Polling an empty queue returns NULL and the size stays 0. |
| Scenarios.RemoveAtOneOfThreeFiveEight | libpriqueue.c:199-218 | Removing index 1 of [3, 5, 8] returns 5 and leaves [3, 8], with 8 now at index 1. |
| Findings.OfferTailReturnsSize | libpriqueue.c:81-84 | Offering 5, 3, 8 to any empty ascending queue: the documented returns are 0, 0, 2. The coded offer returns 3 for the 8, which equals the new size. |
| Findings.OfferAsWrittenMissesIndex | libpriqueue.c:81-84 | For every tail insertion into a non-empty queue, the coded return value is one past the last index, while the documented index holds `x`. |
| Findings.RemoveAtZeroDereferencesNull | libpriqueue.c:204-213 | `priqueue_remove_at(q, 0)` on any ascending queue holding [3, 5, 8] dereferences NULL. The documented behaviour returns 3 and leaves [5, 8]. |
| Findings.RemoveAtZeroIsPoll | libpriqueue.c:204-213 | On every non-empty queue, the coded removal at 0 dereferences NULL. The documented one is exactly a poll. |
| Findings.AtNegativeIndexReturnsFront | libpriqueue.c:141-149 | `priqueue_at(q, -1)` returns the front element 3 of an ascending queue holding [3, 5, 8], where NULL is documented, and dereferences NULL on an empty queue. |

## Left out

- `priqueue_destroy` (libpriqueue.c:238-247) is not modelled. It only frees nodes, and memory release has no counterpart in a value model. It also leaves `root` and `size` dangling, so the queue must not be used again.
- `malloc` (libpriqueue.c:38) and every `free` are not modelled. Allocation is assumed to succeed, and an unlinked node simply stops being reachable.
- The final `return -1` of `priqueue_offer` (libpriqueue.c:86) cannot be reached: both branches of the `if` return.
- `int` overflow of `size`, `counter` and `index` is not modelled, because integers are unbounded here. A queue of more than 2^31 - 1 nodes is out of scope.
- An element reference that is itself NULL is not modelled. In C, a returned NULL could then mean either "empty" or "the stored NULL". Here `Option` keeps the two apart.
- The comparator's function-pointer type and the `priqueue_t` / node layout come from `libpriqueue.h`, which is not part of this model. The comparator is a total function with no side effects.
- Calls on an uninitialised or destroyed queue are not modelled. Every operation requires `Valid`, which `Init` establishes and every operation keeps.
- QueueProperties.OfferThenPollEmpty: the offer/poll round trip is stated only for an empty queue. For any queue, the inverse of an offer is removal at the returned index (`OfferThenRemoveAtUndoes`).

## Findings

| source | as written | input that shows it | evidently intended | confidence | as-written member | corrected member |
|---|---|---|---|---|---|---|
| libpriqueue.c:81-84 | On a tail insertion the loop exits with `counter` equal to the old size, and `counter++` runs before the return. The call returns old size + 1. | Offer 5, 3, 8 into an empty ascending queue: the third call returns 3 for a queue [3, 5, 8] | The zero-based index where the element is stored, 2 here (doc comment at libpriqueue.c:34) | high; not executed | PriQueue.OfferAsWritten | PriQueue.Offer |
| libpriqueue.c:205-213 | For index 0 the walk takes no step, so `last` stays NULL, and `last->next` is written. `root` is never updated. Negative indices do the same. | `priqueue_remove_at(q, 0)` on [3, 5, 8] | Remove and return the front element, as poll does, leaving [5, 8] (doc comment at libpriqueue.c:190-197) | high; not executed | PriQueue.RemoveAtAsWritten | PriQueue.RemoveAt |
| libpriqueue.c:141-149 | Only `index >= q->size` is refused. A negative index walks no step and returns the front element, or dereferences the NULL root of an empty queue. | `priqueue_at(q, -1)` on [3, 5, 8] returns 3 | NULL, since the queue has no element at a negative position (doc comment at libpriqueue.c:131-137) | medium; not executed | PriQueue.AtAsWritten | PriQueue.At |
