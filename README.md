# Hash tables, an unbalanced search tree and heap sort

This project models the data-structure demonstrations from two lectures of a data structures course.

- **Lecture 5** builds three dictionaries of `int` keys and times them against each other:
  - an open-addressing hash table with linear probing (`HashTableLinear`);
  - a hash table with separate chaining (`HashTableChaining`);
  - an unbalanced binary search tree (`BST` over `BSTNode`).
- **Lecture 4** sorts a vector with a max priority queue (`heapSort`) and times it against `std::sort`.

Modules and files:

- `hashing.dfy` (module `Hashing`): the home slot `key % m` shared by both hash tables.
- `linear_probing.dfy` (module `LinearProbing`): the linear-probing table.
  - It is a class over an `array<int>`, with `-1` as the `EMPTY` sentinel.
  - Its validity invariant has three parts:
    - every slot is `EMPTY` or a non-negative key;
    - the probe-cluster property holds: every stored key is reachable from its home slot without crossing an `EMPTY` slot;
    - a ghost multiset of the inserted keys equals the keys the slots hold.
  - `Pos`/`Dist` describe the wrapping probe sequence without `%`. The methods keep the source's `key % m` and `(idx + 1) % m`, and the lemma `Step` connects the two.
- `chaining.dfy` (module `Chaining`): the chaining table. It is a class over an `array<seq<int>>`; each `std::list` bucket becomes a sequence.
- `bst.dfy` (module `SearchTree`): the tree.
  - Nodes are a linked class. Each node carries a ghost footprint (`Repr`) and a ghost abstract value (`Model`, a `Tree` datatype).
  - `TreeInsert` is the value-level meaning of `insertNode`. The linked methods are proved to change `Model` exactly as `TreeInsert` does.
  - `insertNode`'s two recursive branches are written as `InsertLeft` and `InsertRight`. `InsertNode` dispatches to them, so each stays small enough to verify.
- `priority_queue.dfy` (module `PriorityQueue`): the observable behaviour of `std::priority_queue<int>`, a bag with `push`, `top` (a largest element) and `pop`.
- `heapsort.dfy` (module `HeapSorting`): `heapSort` in place on an array.
  - It is proved sorted and a permutation of its input.
  - It is also proved equal to a reference sort that stands for `std::sort`. The proof goes through a lemma that two sorted permutations of one input are equal.

## Model

| member | source | states |
|---|---|---|
| Hashing.Home | Lecture_5/chaining_linprobing_bst.cpp:24 | for a non-negative key and `m > 0`, the home slot lies in `0..m-1`; a key smaller than `m` is its own home slot |
| LinearProbing.Pos | Lecture_5/chaining_linprobing_bst.cpp:24-26 | the slot probed after `d` steps from the home slot `h`, wrapping past the end of the table, lies in `0..m-1` |
| LinearProbing.Step | Lecture_5/chaining_linprobing_bst.cpp:26 | `(idx + 1) % m` moves to the next position of the probe sequence and returns to the home slot after `m` steps |
| LinearProbing.Dist | Lecture_5/chaining_linprobing_bst.cpp:24-27 | every slot is reached from the home slot after exactly one number of steps below `m` |
| LinearProbing.FirstEmpty | Lecture_5/chaining_linprobing_bst.cpp:25-27 | the probe count at which `insert`'s loop stops: the slot there is `EMPTY` and every earlier probe hit an occupied slot |
| LinearProbing.EmptyAhead | Lecture_5/chaining_linprobing_bst.cpp:25-27 | on a table with an `EMPTY` slot, `insert`'s loop finds one in fewer than `m` probes |
| LinearProbing.InsertSlot | Lecture_5/chaining_linprobing_bst.cpp:23-28 | the slot `insert` writes is an `EMPTY` slot of the table |
| LinearProbing.InsertKeepsCluster | Lecture_5/chaining_linprobing_bst.cpp:23-29 | writing the key into that slot keeps every slot `EMPTY` or a key and keeps the probe-cluster property; the table then holds exactly one more copy of the key |
| LinearProbing.AbsentBeforeEmpty | Lecture_5/chaining_linprobing_bst.cpp:34-39 | on a clustered table, a search that meets an `EMPTY` slot before meeting the key may answer "absent" |
| LinearProbing.AbsentAfterFullCycle | Lecture_5/chaining_linprobing_bst.cpp:36-39 | a search that comes back to its start slot after `m` probes without meeting the key may answer "absent" |
| LinearProbing.Stored | Lecture_5/chaining_linprobing_bst.cpp:14-16 | a non-sentinel value is a stored key exactly when some slot holds it; the sentinel is never a stored key |
| LinearProbing.HashTableLinear.constructor | Lecture_5/chaining_linprobing_bst.cpp:19-21 | the table has `size` slots, all `EMPTY`, and no key is inserted |
| LinearProbing.HashTableLinear.Insert | Lecture_5/chaining_linprobing_bst.cpp:23-29 | the new table is the old one with only the first `EMPTY` slot of the key's probe sequence set to the key; one more copy of the key is inserted and the invariant is kept |
| LinearProbing.HashTableLinear.Search | Lecture_5/chaining_linprobing_bst.cpp:31-40 | found exactly when the key was inserted; between 1 and `m` slots are probed; the earlier probes were neither `EMPTY` nor the key; the search stops at the key, at an `EMPTY` slot, or after `m` probes |
| Chaining.InAllKeys | Lecture_5/chaining_linprobing_bst.cpp:45 | a key is in the table exactly when some bucket holds it |
| Chaining.AllKeysAppend | Lecture_5/chaining_linprobing_bst.cpp:55 | appending a key to one bucket adds exactly one copy of that key to the table |
| Chaining.EmptyBuckets | Lecture_5/chaining_linprobing_bst.cpp:50 | a table of empty buckets holds no key |
| Chaining.HashTableChaining.constructor | Lecture_5/chaining_linprobing_bst.cpp:49-51 | the table has `size` empty buckets and no key is inserted |
| Chaining.HashTableChaining.Insert | Lecture_5/chaining_linprobing_bst.cpp:53-56 | bucket `key % m` gets the key appended at its end, every other bucket is unchanged, and every key stays in its home bucket |
| Chaining.HashTableChaining.Search | Lecture_5/chaining_linprobing_bst.cpp:58-64 | found exactly when bucket `key % m` holds the key, and exactly when the key was inserted |
| SearchTree.InsertKeys | Lecture_5/chaining_linprobing_bst.cpp:77-82 | inserting into a tree adds exactly one copy of the key to its keys (this row and the next two are the contract of `TreeInsert`, the value-level `insertNode`) |
| SearchTree.InsertSize | Lecture_5/chaining_linprobing_bst.cpp:77-82 | inserting adds exactly one node |
| SearchTree.InsertOrdered | Lecture_5/chaining_linprobing_bst.cpp:79-80 | inserting keeps the ordering: left keys are smaller than the node's key, right keys are at least it, and an equal key goes right |
| SearchTree.BSTNode.constructor | Lecture_5/chaining_linprobing_bst.cpp:71 | a new node holds the key, has no children, and is the one-node tree |
| SearchTree.BST.constructor | Lecture_5/chaining_linprobing_bst.cpp:75 | a new tree is empty |
| SearchTree.BST.InsertNode | Lecture_5/chaining_linprobing_bst.cpp:77-82 | the returned subtree has the value `TreeInsert` gives its old value; it is the same node when there was one, with fresh nodes only |
| SearchTree.BST.InsertLeft | Lecture_5/chaining_linprobing_bst.cpp:79 | a key smaller than the node's key is inserted into the left subtree; the node's value changes as `TreeInsert` says |
| SearchTree.BST.InsertRight | Lecture_5/chaining_linprobing_bst.cpp:80 | a key at least the node's key is inserted into the right subtree; the node's value changes as `TreeInsert` says |
| SearchTree.BST.SearchNode | Lecture_5/chaining_linprobing_bst.cpp:84-88 | a `true` answer means the key is in the subtree; on an ordered subtree a key that is there is found |
| SearchTree.BST.Insert | Lecture_5/chaining_linprobing_bst.cpp:91-93 | the tree stays valid and ordered, its value is `TreeInsert` of the old value, and its keys gain one copy of the key |
| SearchTree.BST.Search | Lecture_5/chaining_linprobing_bst.cpp:95-97 | found exactly when the key is in the tree |
| PriorityQueue.Empty | Lecture_4/heapsort_vs_cppsort.cpp:12 | a new queue holds nothing |
| PriorityQueue.Push | Lecture_4/heapsort_vs_cppsort.cpp:13 | `push` adds one copy of the element |
| PriorityQueue.Top | Lecture_4/heapsort_vs_cppsort.cpp:15 | `top` of a non-empty queue is an element of it and no element exceeds it |
| PriorityQueue.Pop | Lecture_4/heapsort_vs_cppsort.cpp:16 | `pop` removes exactly one copy of the top |
| HeapSorting.DrainStep | Lecture_4/heapsort_vs_cppsort.cpp:14-17 | writing the top at `i` and popping it keeps the loop invariant: the suffix after `i` is sorted, no queued element exceeds it, and queue and suffix together hold the input |
| HeapSorting.DrainDone | Lecture_4/heapsort_vs_cppsort.cpp:14-17 | when the loop ends, the queue is empty and the array is a sorted permutation of the input |
| HeapSorting.HeapSort | Lecture_4/heapsort_vs_cppsort.cpp:10-18 | the array ends sorted, a permutation of its old contents, and equal to the reference sort of them (the empty array stays empty) |
| HeapSorting.ReferenceSort | Lecture_4/heapsort_vs_cppsort.cpp:40 | the reference sort that stands for `std::sort` returns a sorted permutation of its input |
| HeapSorting.SortedUnique | Lecture_4/heapsort_vs_cppsort.cpp:29-40 | two sorted permutations of one input are equal, so `heapSort` and `std::sort` leave equal vectors |

## Left out

- The two `main` functions are not modelled: random key generation, the timing with `std::chrono` and the console output.
- Lecture_2/matmul_demo.cpp and Lecture_1/Vector_vs_list.cpp are not part of this model. They are timing demonstrations of floating-point matrix products and of appending to a vector and to a linked list.
- `int` is unbounded in the model. Keys come from `rand()` and can reach 2^31-1, but the only arithmetic on a key is `key % m`, which cannot overflow, and `idx + 1` never exceeds `m` (3·10^7 in `main`).
- Negative keys are excluded by a precondition; `main` only inserts values of `rand()`, which are non-negative. For a negative key C++ `%` gives an index in `-(m-1)..0`: a negative index reads out of bounds, and index 0 stores a negative key, which for `-1` is the `EMPTY` sentinel itself, so that key is lost.
- A table of zero slots is excluded by a precondition on `insert` and `search`, where C++ would divide by zero. The constructors accept size 0, and a negative size, which makes `std::vector` throw, is excluded.
- LinearProbing.HashTableLinear.Insert: requires an `EMPTY` slot, because on a full table the source's loop never ends.
- `std::priority_queue`'s binary heap is not modelled. The queue is a value whose `push`, `top` and `pop` behave as the standard promises, and the source's in-place updates of it become reassignments of that value.
- `std::sort` is not modelled by its algorithm. It stands as a reference sort. Only its result matters, and any sort returns the same result by `SortedUnique`.
- `std::vector` and `std::list` internals are not modelled; they are arrays and sequences.
- Memory management is not modelled. Tree nodes are never freed in the source, and the model has no deallocation.
- `heapSort`'s conversion of `arr.size() - 1` to `int` is not modelled. It is exact for the sizes the program uses (up to 10^7).
