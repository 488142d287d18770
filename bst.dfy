/**
 * The ordered index of src/bst.ts: an unbalanced binary search tree over
 * numbers, filled by `insert` and read back by the in-order walk `inOrder`.
 *
 * The nodes are modelled as a value tree held in the `root` field of the
 * `BST` object. The `current` pointer of the insertion loop is the path from
 * the root to the node it points at, and linking the new node to an empty
 * child is a graft at that path.
 */
module Bst {

  datatype Tree = Leaf | Node(left: Tree, value: int, right: Tree)

  datatype Dir = Left | Right

  // ---------------------------------------------------------------------------
  // Contents, order and the search invariant
  // ---------------------------------------------------------------------------

  /** Every value stored in the tree, with multiplicity. */
  function Elements(t: Tree): multiset<int> {
    match t
    case Leaf => multiset{}
    case Node(l, v, r) => Elements(l) + multiset{v} + Elements(r)
  }

  /** The left / node / right reading of the tree. */
  function Flatten(t: Tree): seq<int> {
    match t
    case Leaf => []
    case Node(l, v, r) => Flatten(l) + [v] + Flatten(r)
  }

  function Size(t: Tree): nat {
    match t
    case Leaf => 0
    case Node(l, _, r) => Size(l) + 1 + Size(r)
  }

  /**
   * The ordering invariant: everything left of a node is smaller than it,
   * everything right of it is at least as large (equal values go right).
   */
  predicate IsSearchTree(t: Tree) {
    match t
    case Leaf => true
    case Node(l, v, r) =>
      && (forall x :: x in Elements(l) ==> x < v)
      && (forall x :: x in Elements(r) ==> v <= x)
      && IsSearchTree(l) && IsSearchTree(r)
  }

  predicate Sorted(s: seq<int>) {
    forall i, j :: 0 <= i < j < |s| ==> s[i] <= s[j]
  }

  // ---------------------------------------------------------------------------
  // Positions in the tree
  // ---------------------------------------------------------------------------

  function Child(t: Tree, d: Dir): Tree
    requires t.Node?
  {
    if d == Left then t.left else t.right
  }

  function WithChild(t: Tree, d: Dir, c: Tree): Tree
    requires t.Node?
  {
    if d == Left then Node(c, t.value, t.right) else Node(t.left, t.value, c)
  }

  /** The subtree reached by following `p` from the root (empty once the path leaves the tree). */
  function SubtreeAt(t: Tree, p: seq<Dir>): Tree {
    if p == [] || t == Leaf then (if p == [] then t else Leaf)
    else SubtreeAt(Child(t, p[0]), p[1..])
  }

  /** `t` with the subtree at `p` replaced by `s`; every other node and link kept. */
  function Graft(t: Tree, p: seq<Dir>, s: Tree): Tree {
    if p == [] then s
    else if t == Leaf then t
    else WithChild(t, p[0], Graft(Child(t, p[0]), p[1..], s))
  }

  /** `p` runs through existing nodes and ends at an empty (null) link. */
  predicate NullLink(t: Tree, p: seq<Dir>) {
    if p == [] then t == Leaf
    else t.Node? && NullLink(Child(t, p[0]), p[1..])
  }

  // ---------------------------------------------------------------------------
  // Insertion, as a recursive reference for the loop in BST.Insert
  // ---------------------------------------------------------------------------

  /** Where `insert(v)` hangs the new node: left while `v` is smaller, right otherwise. */
  function InsertionPath(t: Tree, v: int): seq<Dir> {
    match t
    case Leaf => []
    case Node(l, x, r) => if v < x then [Left] + InsertionPath(l, v) else [Right] + InsertionPath(r, v)
  }

  function Inserted(t: Tree, v: int): Tree {
    match t
    case Leaf => Node(Leaf, v, Leaf)
    case Node(l, x, r) => if v < x then Node(Inserted(l, v), x, r) else Node(l, x, Inserted(r, v))
  }

  /** Insertion adds exactly one occurrence of `v` and removes nothing. */
  lemma {:induction false} InsertedElements(t: Tree, v: int)
    ensures Elements(Inserted(t, v)) == Elements(t) + multiset{v}
  {
    match t
    case Leaf =>
    case Node(l, x, r) =>
      if v < x {
        InsertedElements(l, v);
        assert Inserted(t, v) == Node(Inserted(l, v), x, r);
      } else {
        InsertedElements(r, v);
        assert Inserted(t, v) == Node(l, x, Inserted(r, v));
      }
  }

  /** Insertion adds exactly one node. */
  lemma {:induction false} InsertedSize(t: Tree, v: int)
    ensures Size(Inserted(t, v)) == Size(t) + 1
  {
    match t
    case Leaf =>
    case Node(l, x, r) =>
      if v < x { InsertedSize(l, v); } else { InsertedSize(r, v); }
  }

  /** The first value inserted into an empty tree becomes the root, and the walk lists just it. */
  lemma FirstInsertion(v: int)
    ensures Inserted(Leaf, v) == Node(Leaf, v, Leaf)
    ensures Flatten(Inserted(Leaf, v)) == [v]
  {
    assert Flatten(Node(Leaf, v, Leaf)) == [] + [v] + [];
  }

  /** Insertion keeps the search invariant. */
  lemma {:induction false} InsertedIsSearchTree(t: Tree, v: int)
    requires IsSearchTree(t)
    ensures IsSearchTree(Inserted(t, v))
  {
    match t
    case Leaf =>
    case Node(l, x, r) =>
      if v < x {
        InsertedIsSearchTree(l, v);
        InsertedElements(l, v);
        var l' := Inserted(l, v);
        forall y | y in Elements(l') ensures y < x {
          assert y in Elements(l) || y == v;
        }
        assert Inserted(t, v) == Node(l', x, r);
      } else {
        InsertedIsSearchTree(r, v);
        InsertedElements(r, v);
        var r' := Inserted(r, v);
        forall y | y in Elements(r') ensures x <= y {
          assert y in Elements(r) || y == v;
        }
        assert Inserted(t, v) == Node(l, x, r');
      }
  }

  /**
   * Insertion changes nothing but one previously empty link: the new tree is
   * the old one with a fresh leaf node hung on the null link at the end of
   * the insertion path.
   */
  lemma {:induction false} InsertedFillsNullLink(t: Tree, v: int)
    ensures NullLink(t, InsertionPath(t, v))
    ensures Inserted(t, v) == Graft(t, InsertionPath(t, v), Node(Leaf, v, Leaf))
  {
    match t
    case Leaf =>
    case Node(l, x, r) =>
      var p := InsertionPath(t, v);
      if v < x {
        InsertedFillsNullLink(l, v);
        assert p[0] == Left && p[1..] == InsertionPath(l, v);
      } else {
        InsertedFillsNullLink(r, v);
        assert p[0] == Right && p[1..] == InsertionPath(r, v);
      }
  }

  /** Following one more step from a node. */
  lemma {:induction false} SubtreeStep(t: Tree, p: seq<Dir>, d: Dir)
    requires SubtreeAt(t, p).Node?
    ensures SubtreeAt(t, p + [d]) == Child(SubtreeAt(t, p), d)
  {
    if p != [] {
      assert (p + [d])[1..] == p[1..] + [d];
      SubtreeStep(Child(t, p[0]), p[1..], d);
    }
  }

  /** Grafting below a node is grafting that node with one child replaced. */
  lemma {:induction false} GraftStep(t: Tree, p: seq<Dir>, d: Dir, s: Tree)
    requires SubtreeAt(t, p).Node?
    ensures Graft(t, p + [d], s) == Graft(t, p, WithChild(SubtreeAt(t, p), d, s))
  {
    if p != [] {
      assert (p + [d])[1..] == p[1..] + [d];
      GraftStep(Child(t, p[0]), p[1..], d, s);
    }
  }

  // ---------------------------------------------------------------------------
  // The in-order walk
  // ---------------------------------------------------------------------------

  /** The in-order walk lists exactly the stored values. */
  lemma {:induction false} FlattenElements(t: Tree)
    ensures multiset(Flatten(t)) == Elements(t)
    ensures |Flatten(t)| == Size(t)
  {
    match t
    case Leaf =>
    case Node(l, v, r) =>
      FlattenElements(l);
      FlattenElements(r);
  }

  /** The in-order walk of a search tree is non-decreasing. */
  lemma {:induction false} FlattenSorted(t: Tree)
    requires IsSearchTree(t)
    ensures Sorted(Flatten(t))
  {
    match t
    case Leaf =>
    case Node(l, v, r) =>
      FlattenSorted(l);
      FlattenSorted(r);
      FlattenElements(l);
      FlattenElements(r);
      var a, b := Flatten(l), Flatten(r);
      forall i | 0 <= i < |a| ensures a[i] < v {
        assert a[i] in multiset(a);
      }
      forall i | 0 <= i < |b| ensures v <= b[i] {
        assert b[i] in multiset(b);
      }
      SortedAround(a, v, b);
  }

  lemma SortedAround(a: seq<int>, v: int, b: seq<int>)
    requires Sorted(a) && Sorted(b)
    requires forall i :: 0 <= i < |a| ==> a[i] < v
    requires forall i :: 0 <= i < |b| ==> v <= b[i]
    ensures Sorted(a + [v] + b)
  {
    var s := a + [v] + b;
    forall i, j | 0 <= i < j < |s| ensures s[i] <= s[j] {
      if j < |a| {
        assert s[i] == a[i] && s[j] == a[j];
      } else if i > |a| {
        assert s[i] == b[i - |a| - 1] && s[j] == b[j - |a| - 1];
      } else if i == |a| {
        assert s[j] == b[j - |a| - 1];
      } else if j == |a| {
        assert s[i] == a[i];
      } else {
        assert s[i] == a[i] && s[j] == b[j - |a| - 1];
      }
    }
  }

  /** The mutable index: `root` is the only field `insert` changes. */
  class BST {
    var root: Tree

    ghost predicate Valid()
      reads this
    {
      IsSearchTree(root)
    }

    constructor ()
      ensures Valid() && root == Leaf
    {
      root := Leaf;
    }

    /**
     * `insert(value)`: walk down from the root, left while `value` is smaller
     * than the current node and right otherwise, and hang a new node on the
     * first empty link.
     */
    method Insert(value: int)
      requires Valid()
      modifies this
      ensures Valid()
      ensures root == Inserted(old(root), value)
      ensures Elements(root) == Elements(old(root)) + multiset{value}
      ensures exists p :: NullLink(old(root), p) && root == Graft(old(root), p, Node(Leaf, value, Leaf))
    {
      InsertedIsSearchTree(root, value);
      InsertedElements(root, value);
      InsertedFillsNullLink(root, value);
      ghost var before := root;
      var newNode := Node(Leaf, value, Leaf);
      if root == Leaf {
        root := newNode;
        return;
      }
      var current := root;
      var path: seq<Dir> := [];
      while true
        invariant root == before
        invariant current.Node? && SubtreeAt(root, path) == current
        invariant Inserted(root, value) == Graft(root, path, Inserted(current, value))
        decreases current
      {
        if value < current.value {
          GraftStep(root, path, Left, newNode);
          if current.left == Leaf {
            assert Inserted(current, value) == WithChild(current, Left, newNode);
            root := Graft(root, path + [Left], newNode);
            assert root == Inserted(before, value);
            return;
          }
          SubtreeStep(root, path, Left);
          GraftStep(root, path, Left, Inserted(current.left, value));
          current, path := current.left, path + [Left];
        } else {
          GraftStep(root, path, Right, newNode);
          if current.right == Leaf {
            assert Inserted(current, value) == WithChild(current, Right, newNode);
            root := Graft(root, path + [Right], newNode);
            assert root == Inserted(before, value);
            return;
          }
          SubtreeStep(root, path, Right);
          GraftStep(root, path, Right, Inserted(current.right, value));
          current, path := current.right, path + [Right];
        }
      }
    }

    /** `inOrder()`: the stored values in non-decreasing order; the tree is only read. */
    method InOrder() returns (result: seq<int>)
      requires Valid()
      ensures result == Flatten(root)
      ensures Sorted(result) && multiset(result) == Elements(root)
    {
      FlattenSorted(root);
      FlattenElements(root);
      result := Traverse(root, []);
    }

    /** The nested `traverse`: pushes the in-order walk of `node` onto `acc`. */
    static method Traverse(node: Tree, acc: seq<int>) returns (result: seq<int>)
      ensures result == acc + Flatten(node)
      decreases node
    {
      if node == Leaf {
        return acc;
      }
      result := Traverse(node.left, acc);
      result := result + [node.value];
      result := Traverse(node.right, result);
    }
  }
}
