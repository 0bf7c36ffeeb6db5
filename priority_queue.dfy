/** The max priority queue that heap sort uses. Only its observable
    behaviour is modelled: a bag of integers whose `top` is a largest element
    and whose `pop` removes one copy of it. The bag is held in a sequence in
    no particular order; the binary heap behind the library type is not
    part of this model. */
module PriorityQueue {

  datatype Queue = Queue(items: seq<int>)

  /** The elements of the queue, with multiplicity. */
  function Elements(q: Queue): multiset<int>
  {
    multiset(q.items)
  }

  /** A queue with no elements. */
  function Empty(): (q: Queue)
    ensures Elements(q) == multiset{}
  {
    Queue([])
  }

  function Push(q: Queue, x: int): (r: Queue)
    ensures Elements(r) == Elements(q) + multiset{x}
  {
    Queue(q.items + [x])
  }

  /** A largest element; the queue must not be empty. */
  function Top(q: Queue): (top: int)
    requires Elements(q) != multiset{}
    ensures top in Elements(q)
    ensures forall x :: x in Elements(q) ==> x <= top
  {
    MaxOf(q.items)
  }

  /** Removes one copy of the largest element; the queue must not be empty. */
  function Pop(q: Queue): (r: Queue)
    requires Elements(q) != multiset{}
    ensures Elements(r) == Elements(q) - multiset{Top(q)}
  {
    Queue(RemoveOne(q.items, Top(q)))
  }

  function MaxOf(s: seq<int>): (m: int)
    requires s != []
    ensures m in s
    ensures forall i :: 0 <= i < |s| ==> s[i] <= m
  {
    if |s| == 1 then s[0]
    else
      var rest := MaxOf(s[1..]);
      if s[0] >= rest then s[0] else rest
  }

  function RemoveOne(s: seq<int>, x: int): (r: seq<int>)
    requires x in s
    ensures multiset(r) == multiset(s) - multiset{x}
  {
    assert s == [s[0]] + s[1..];
    if s[0] == x then s[1..] else [s[0]] + RemoveOne(s[1..], x)
  }
}
