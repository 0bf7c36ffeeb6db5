/** Heap sort through a max priority queue: every element is pushed, then
    the array is filled from the back with the current maximum. */
module HeapSorting {
  import opened PriorityQueue

  ghost predicate Sorted(s: seq<int>)
  {
    forall i, j :: 0 <= i < j < |s| ==> s[i] <= s[j]
  }

  /** A reference sort (insertion sort), standing for `std::sort`, against
      which the heap sort is compared. */
  function ReferenceSort(s: seq<int>): (r: seq<int>)
    ensures Sorted(r) && multiset(r) == multiset(s)
  {
    if s == [] then []
    else
      assert s == [s[0]] + s[1..];
      InsertSorted(ReferenceSort(s[1..]), s[0])
  }

  function InsertSorted(s: seq<int>, x: int): (r: seq<int>)
    requires Sorted(s)
    ensures Sorted(r) && multiset(r) == multiset(s) + multiset{x}
  {
    if s == [] || x <= s[0] then
      SortedCons(x, s);
      [x] + s
    else
      assert s == [s[0]] + s[1..];
      var rest := InsertSorted(s[1..], x);
      forall k | 0 <= k < |rest| ensures s[0] <= rest[k] {
        assert rest[k] in multiset(rest);
        if rest[k] != x {
          assert rest[k] in s;
          SortedHeadIsMin(s, rest[k]);
        }
      }
      SortedCons(s[0], rest);
      [s[0]] + rest
  }

  /** The first element of a sorted sequence is its least. */
  lemma SortedHeadIsMin(s: seq<int>, y: int)
    requires Sorted(s) && y in s
    ensures s[0] <= y
  {
    var k :| 0 <= k < |s| && s[k] == y;
  }

  /** An element no greater than any element of a sorted sequence can be
      put in front of it. */
  lemma SortedCons(a: int, s: seq<int>)
    requires Sorted(s) && forall k :: 0 <= k < |s| ==> a <= s[k]
    ensures Sorted([a] + s)
  {
    var t := [a] + s;
    forall i, j | 0 <= i < j < |t| ensures t[i] <= t[j] {
      if i == 0 {
        assert t[j] == s[j - 1];
      } else {
        assert t[i] == s[i - 1] && t[j] == s[j - 1];
      }
    }
  }

  /** Sequences with the same elements and the same first element have
      tails with the same elements. */
  lemma TailMultiset(a: seq<int>, b: seq<int>)
    requires a != [] && b != [] && a[0] == b[0] && multiset(a) == multiset(b)
    ensures multiset(a[1..]) == multiset(b[1..])
  {
    assert a == [a[0]] + a[1..] && b == [b[0]] + b[1..];
    assert multiset(a[1..]) == multiset(a) - multiset{a[0]};
  }

  lemma SortedTail(s: seq<int>)
    requires Sorted(s) && s != []
    ensures Sorted(s[1..])
  {
  }

  /** A sorted sequence is determined by its multiset of elements: any two
      sorts of the same input agree. */
  lemma {:induction false} SortedUnique(a: seq<int>, b: seq<int>)
    requires Sorted(a) && Sorted(b) && multiset(a) == multiset(b)
    ensures a == b
  {
    assert |a| == |multiset(a)| == |multiset(b)| == |b|;
    if a != [] {
      var x, y, a', b' := a[0], b[0], a[1..], b[1..];
      assert a == [x] + a' && b == [y] + b';
      assert x in multiset(b) && y in multiset(a);
      SortedHeadIsMin(b, x);
      SortedHeadIsMin(a, y);
      TailMultiset(a, b);
      SortedTail(a);
      SortedTail(b);
      SortedUnique(a', b');
    }
  }

  /** The state of heap sort's second loop at index `i`: the suffix after
      `i` is sorted, no element still queued exceeds an element of it, and
      the queue and the suffix together hold the input. */
  ghost predicate Draining(a: seq<int>, q: multiset<int>, i: int, input: multiset<int>)
  {
    -1 <= i < |a| && |q| == i + 1 &&
    q + multiset(a[i + 1..]) == input &&
    Sorted(a[i + 1..]) &&
    forall x, j :: x in q && i < j < |a| ==> x <= a[j]
  }

  /** Writing the queue's maximum at `i` and popping it extends the sorted
      suffix by one. */
  lemma DrainStep(a: seq<int>, q: multiset<int>, i: int, input: multiset<int>, top: int)
    requires Draining(a, q, i, input) && i >= 0
    requires top in q && forall x :: x in q ==> x <= top
    ensures Draining(a[i := top], q - multiset{top}, i - 1, input)
  {
    var b := a[i := top];
    assert b[i + 1..] == a[i + 1..];
    assert b[i..] == [top] + a[i + 1..];
    SortedCons(top, a[i + 1..]);
  }

  /** When the loop is over, the queue is empty and the array is a sorted
      permutation of the input. */
  lemma DrainDone(a: seq<int>, q: multiset<int>, input: multiset<int>)
    requires Draining(a, q, -1, input)
    ensures q == multiset{}
    ensures Sorted(a) && multiset(a) == input
  {
    assert a[0..] == a;
  }

  method HeapSort(arr: array<int>)
    modifies arr
    ensures Sorted(arr[..])
    ensures multiset(arr[..]) == multiset(old(arr[..]))
    ensures arr[..] == ReferenceSort(old(arr[..]))
  {
    ghost var input := multiset(arr[..]);
    var pq := Empty();
    for k := 0 to arr.Length
      invariant Elements(pq) == multiset(arr[..k])
    {
      assert arr[..k + 1] == arr[..k] + [arr[k]];
      pq := Push(pq, arr[k]);
    }
    assert arr[..] == arr[..arr.Length];
    var i := arr.Length - 1;
    while i >= 0
      invariant Draining(arr[..], Elements(pq), i, input)
    {
      DrainStep(arr[..], Elements(pq), i, input, Top(pq));
      arr[i] := Top(pq);
      pq := Pop(pq);
      i := i - 1;
    }
    DrainDone(arr[..], Elements(pq), input);
    SortedUnique(arr[..], ReferenceSort(old(arr[..])));
  }
}
