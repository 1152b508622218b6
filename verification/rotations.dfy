/** `rotateLeft` and `rotateRight` (tree.hpp): single rotations at a node,
    which lift one child into the node's place. */
module Rotations {
  import opened Trees

  /** Lifts the right child `y` of `x` into `x`'s place; `y`'s left subtree
      becomes `x`'s right subtree. Without a right child nothing changes. */
  function RotateLeft(t: Tree): (r: Tree)
    requires t.Node?
    ensures InOrder(r) == InOrder(t)
    ensures Bst(t) ==> Bst(r)
    ensures t.right.Leaf? ==> r == t
    ensures t.right.Node? ==> r.Node? && r.kv == t.right.kv && r.left.Node? && r.left.kv == t.kv
  {
    match t.right
    case Leaf => t
    case Node(b, y, c) =>
      var r := Node(Node(t.left, t.kv, b), y, c);
      assert InOrder(r) == InOrder(t);
      BstIffSorted(t);
      BstIffSorted(r);
      r
  }

  /** Lifts the left child `y` of `x` into `x`'s place; `y`'s right subtree
      becomes `x`'s left subtree. Without a left child nothing changes. */
  function RotateRight(t: Tree): (r: Tree)
    requires t.Node?
    ensures InOrder(r) == InOrder(t)
    ensures Bst(t) ==> Bst(r)
    ensures t.left.Leaf? ==> r == t
    ensures t.left.Node? ==> r.Node? && r.kv == t.left.kv && r.right.Node? && r.right.kv == t.kv
  {
    match t.left
    case Leaf => t
    case Node(a, y, b) =>
      var r := Node(a, y, Node(b, t.kv, t.right));
      assert InOrder(r) == InOrder(t);
      BstIffSorted(t);
      BstIffSorted(r);
      r
  }

  /** The two rotations undo each other. */
  lemma RotationsInverse(t: Tree)
    requires t.Node?
    ensures t.right.Node? ==> RotateRight(RotateLeft(t)) == t
    ensures t.left.Node? ==> RotateLeft(RotateRight(t)) == t
  {
  }
}
