/** An unbalanced binary search tree of integer keys that supports insert
    and search only. Keys less than a node's key go left; equal or greater
    keys go right. */
module SearchTree {

  /** The abstract value of a tree of nodes. */
  datatype Tree = Leaf | Node(left: Tree, key: int, right: Tree)

  /** What `insertNode` does to the tree it is given: it hangs a new node
      holding `key` where the search for `key` falls off the tree. */
  function TreeInsert(t: Tree, key: int): Tree
  {
    match t
    case Leaf => Node(Leaf, key, Leaf)
    case Node(l, k, rt) =>
      if key < k then Node(TreeInsert(l, key), k, rt) else Node(l, k, TreeInsert(rt, key))
  }

  /** The keys of a tree, with multiplicity. */
  function Keys(t: Tree): multiset<int>
  {
    match t
    case Leaf => multiset{}
    case Node(l, k, r) => Keys(l) + multiset{k} + Keys(r)
  }

  /** The number of nodes of a tree. */
  function Size(t: Tree): nat
  {
    match t
    case Leaf => 0
    case Node(l, _, r) => Size(l) + 1 + Size(r)
  }

  /** The ordering invariant: left keys are less than the node's key, right
      keys are greater than or equal to it. */
  ghost predicate Ordered(t: Tree)
  {
    match t
    case Leaf => true
    case Node(l, k, r) =>
      Ordered(l) && Ordered(r) &&
      (forall x :: x in Keys(l) ==> x < k) &&
      (forall x :: x in Keys(r) ==> k <= x)
  }

  /** Insertion adds exactly one copy of the key. */
  lemma {:induction false} InsertKeys(t: Tree, key: int)
    ensures Keys(TreeInsert(t, key)) == Keys(t) + multiset{key}
  {
    if t.Node? {
      var l, k, r := Keys(t.left), multiset{t.key}, Keys(t.right);
      if key < t.key {
        InsertKeys(t.left, key);
        assert Keys(TreeInsert(t, key)) == (l + multiset{key}) + k + r;
      } else {
        InsertKeys(t.right, key);
        assert Keys(TreeInsert(t, key)) == l + k + (r + multiset{key});
      }
    }
  }

  /** Insertion adds exactly one node. */
  lemma {:induction false} InsertSize(t: Tree, key: int)
    ensures Size(TreeInsert(t, key)) == Size(t) + 1
  {
    if t.Node? {
      if key < t.key { InsertSize(t.left, key); } else { InsertSize(t.right, key); }
    }
  }

  /** Insertion keeps a tree ordered; an equal key goes to the right, where
      keys greater than or equal to the node's key belong. */
  lemma {:induction false} InsertOrdered(t: Tree, key: int)
    requires Ordered(t)
    ensures Ordered(TreeInsert(t, key))
  {
    if t.Node? {
      var l, k, r := t.left, t.key, t.right;
      if key < k {
        InsertOrdered(l, key);
        InsertKeys(l, key);
        forall x | x in Keys(TreeInsert(l, key)) ensures x < k {
          assert x in Keys(l) || x == key;
        }
        assert TreeInsert(t, key) == Node(TreeInsert(l, key), k, r);
      } else {
        InsertOrdered(r, key);
        InsertKeys(r, key);
        forall x | x in Keys(TreeInsert(r, key)) ensures k <= x {
          assert x in Keys(r) || x == key;
        }
        assert TreeInsert(t, key) == Node(l, k, TreeInsert(r, key));
      }
    }
  }

  class BSTNode {
    var key: int
    var left: BSTNode?
    var right: BSTNode?
    /** The nodes of the subtree rooted here. */
    ghost var Repr: set<object>
    /** The value of the subtree rooted here. */
    ghost var Model: Tree

    ghost predicate Valid()
      reads this, Repr
      decreases Repr
    {
      this in Repr &&
      (left != null ==>
        left in Repr && left.Repr <= Repr && this !in left.Repr && left.Valid()) &&
      (right != null ==>
        right in Repr && right.Repr <= Repr && this !in right.Repr && right.Valid()) &&
      (left != null && right != null ==> left.Repr !! right.Repr) &&
      Model == Node(ModelOf(left), key, ModelOf(right))
    }

    constructor (k: int)
      ensures Valid() && fresh(Repr)
      ensures key == k && left == null && right == null
      ensures Model == Node(Leaf, k, Leaf)
    {
      key, left, right := k, null, null;
      Repr := {this};
      Model := Node(Leaf, k, Leaf);
    }
  }

  /** A node whose children are valid, lie in its footprint apart from each
      other and from it, and whose value is built from theirs, is valid. */
  lemma Relink(n: BSTNode)
    requires n in n.Repr
    requires n.left != null ==> n.left in n.Repr && n.left.Repr <= n.Repr && n !in n.left.Repr && n.left.Valid()
    requires n.right != null ==> n.right in n.Repr && n.right.Repr <= n.Repr && n !in n.right.Repr && n.right.Valid()
    requires n.left != null && n.right != null ==> n.left.Repr !! n.right.Repr
    requires n.Model == Node(ModelOf(n.left), n.key, ModelOf(n.right))
    ensures n.Valid()
  {
  }

  /** The value of the (possibly empty) subtree rooted at `n`. */
  ghost function ModelOf(n: BSTNode?): Tree
    reads n
  {
    if n == null then Leaf else n.Model
  }

  /** The nodes of the (possibly empty) subtree rooted at `n`. */
  ghost function ReprOf(n: BSTNode?): set<object>
    reads n
  {
    if n == null then {} else n.Repr
  }

  class BST {
    var root: BSTNode?
    ghost var Repr: set<object>

    ghost predicate Valid()
      reads this, Repr
    {
      this in Repr &&
      (root != null ==>
        root in Repr && root.Repr <= Repr && this !in root.Repr && root.Valid()) &&
      Ordered(ModelOf(root))
    }

    /** The keys the tree holds. */
    ghost function Contents(): multiset<int>
      reads this, root
    {
      Keys(ModelOf(root))
    }

    constructor ()
      ensures Valid() && fresh(Repr)
      ensures root == null && Contents() == multiset{}
    {
      root := null;
      Repr := {this};
    }

    /** Inserts `key` below `node` and returns the root of the new subtree:
        the same node when there was one, a fresh node otherwise. */
    static method InsertNode(node: BSTNode?, key: int) returns (r: BSTNode)
      requires node != null ==> node.Valid()
      modifies ReprOf(node)
      ensures r.Valid()
      ensures r.Model == TreeInsert(old(ModelOf(node)), key)
      ensures node != null ==> r == node
      ensures fresh(r.Repr - old(ReprOf(node)))
      decreases ReprOf(node), 1
    {
      if node == null {
        r := new BSTNode(key);
      } else if key < node.key {
        InsertLeft(node, key);
        r := node;
      } else {
        InsertRight(node, key);
        r := node;
      }
    }

    /** The step of `insertNode` that descends into the left child. */
    static method InsertLeft(node: BSTNode, key: int)
      requires node.Valid() && key < node.key
      modifies node.Repr
      ensures node.Valid()
      ensures node.Model == TreeInsert(old(node.Model), key)
      ensures fresh(node.Repr - old(node.Repr))
      decreases node.Repr, 0
    {
      ghost var lm, rm := ModelOf(node.left), ModelOf(node.right);
      assert node.Model == Node(lm, node.key, rm);
      var l := InsertNode(node.left, key);
      assert node !in l.Repr;
      assert node.right != null ==> node.right.Valid() && node.right.Repr !! l.Repr;
      assert ModelOf(node.right) == rm;
      node.left, node.Repr, node.Model := l, node.Repr + l.Repr, Node(l.Model, node.key, rm);
      Relink(node);
      assert node.Model == Node(TreeInsert(lm, key), node.key, rm);
    }

    /** The step of `insertNode` that descends into the right child. */
    static method InsertRight(node: BSTNode, key: int)
      requires node.Valid() && node.key <= key
      modifies node.Repr
      ensures node.Valid()
      ensures node.Model == TreeInsert(old(node.Model), key)
      ensures fresh(node.Repr - old(node.Repr))
      decreases node.Repr, 0
    {
      ghost var lm, rm := ModelOf(node.left), ModelOf(node.right);
      assert node.Model == Node(lm, node.key, rm);
      var rt := InsertNode(node.right, key);
      assert node !in rt.Repr;
      assert node.left != null ==> node.left.Valid() && node.left.Repr !! rt.Repr;
      assert ModelOf(node.left) == lm;
      node.right, node.Repr, node.Model := rt, node.Repr + rt.Repr, Node(lm, node.key, rt.Model);
      Relink(node);
      assert node.Model == Node(lm, node.key, TreeInsert(rm, key));
    }

    /** Whether `key` occurs in the subtree rooted at `node`, found by
        descending into one child at each node. */
    static function SearchNode(node: BSTNode?, key: int): (found: bool)
      requires node != null ==> node.Valid()
      reads if node == null then {} else {node} + node.Repr
      ensures found ==> key in Keys(ModelOf(node))
      ensures Ordered(ModelOf(node)) && key in Keys(ModelOf(node)) ==> found
      decreases ReprOf(node)
    {
      if node == null then false
      else if node.key == key then true
      else if key < node.key then
        assert Ordered(ModelOf(node)) && key in Keys(ModelOf(node)) ==> key in Keys(ModelOf(node.left));
        SearchNode(node.left, key)
      else
        assert Ordered(ModelOf(node)) && key in Keys(ModelOf(node)) ==> key in Keys(ModelOf(node.right));
        SearchNode(node.right, key)
    }

    method Insert(key: int)
      requires Valid()
      modifies Repr
      ensures Valid() && fresh(Repr - old(Repr))
      ensures ModelOf(root) == TreeInsert(old(ModelOf(root)), key)
      ensures Contents() == old(Contents()) + multiset{key}
    {
      ghost var before := ModelOf(root);
      InsertKeys(before, key);
      InsertOrdered(before, key);
      ghost var oldRepr := ReprOf(root);
      var r := InsertNode(root, key);
      assert this !in r.Repr by {
        assert this !in oldRepr && this !in r.Repr - oldRepr;
      }
      assert r.Model == TreeInsert(before, key);
      root, Repr := r, Repr + r.Repr;
      assert r.Valid() && ModelOf(r) == TreeInsert(before, key);
    }

    method Search(key: int) returns (found: bool)
      requires Valid()
      ensures found <==> key in Contents()
    {
      found := SearchNode(root, key);
    }
  }
}
