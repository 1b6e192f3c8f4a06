/** The node chain behind the queue: each node wraps one element reference
    and owns the rest of the chain, so the chain is acyclic and has no
    shared or back references (libpriqueue.c keeps `content` and `next` in
    each node). `Elems` is the sequence the chain stands for. */
module Chains {

  datatype Chain<T> = Nil | Node(content: T, next: Chain<T>)

  /** Number of nodes reachable from `c`. */
  function Length<T>(c: Chain<T>): nat {
    match c
    case Nil => 0
    case Node(_, next) => 1 + Length(next)
  }

  /** The element references of the chain, head first. */
  function Elems<T>(c: Chain<T>): (s: seq<T>)
    ensures |s| == Length(c)
  {
    match c
    case Nil => []
    case Node(e, next) => [e] + Elems(next)
  }

  /** Fresh nodes for `prefix`, in order, whose last `next` is `tail`. */
  function Link<T>(prefix: seq<T>, tail: Chain<T>): (c: Chain<T>)
    ensures Elems(c) == prefix + Elems(tail)
    ensures Length(c) == |prefix| + Length(tail)
  {
    if prefix == [] then tail
    else
      assert prefix == [prefix[0]] + prefix[1..];
      Node(prefix[0], Link(prefix[1..], tail))
  }

  /** A chain is determined by the sequence it stands for. */
  lemma {:induction false} ElemsInjective<T>(a: Chain<T>, b: Chain<T>)
    requires Elems(a) == Elems(b)
    ensures a == b
  {
    match a
    case Nil =>
    case Node(_, next) =>
      assert Elems(a)[1..] == Elems(next);
      assert Elems(b)[1..] == Elems(b.next);
      ElemsInjective(next, b.next);
  }

  /** The content of the node reached by following `next` `i` times from `c`. */
  function Nth<T>(c: Chain<T>, i: nat): (e: T)
    requires i < Length(c)
    ensures e == Elems(c)[i]
  {
    if i == 0 then c.content else Nth(c.next, i - 1)
  }
}
