/** Node identity. The C++ code addresses a node by pointer and walks to it
    through `left`/`right`/`parent` links; here a node is named by the path of
    child directions that leads to it from the root, and rewriting the links
    around a node is replacing the subtree at its path. */
module Paths {
  import opened Pairs
  import opened Trees

  datatype Dir = Left | Right

  type Path = seq<Dir>

  function Child(t: Tree, d: Dir): Tree
    requires t.Node?
  {
    if d == Left then t.left else t.right
  }

  /** The subtree at path `p`; `Leaf` once the path runs off the tree. */
  function Subtree(t: Tree, p: Path): Tree
    decreases |p|
  {
    if |p| == 0 || t.Leaf? then (if |p| == 0 then t else Leaf)
    else Subtree(Child(t, p[0]), p[1..])
  }

  /** `p` names a node of `t`. */
  predicate Reaches(t: Tree, p: Path)
  {
    Subtree(t, p).Node?
  }

  /** Every step of `p` but the last leaves from a node, so `p` names a node
      or an empty child slot of a node. */
  ghost predicate OnTree(t: Tree, p: Path)
    decreases |p|
  {
    |p| == 0 || (t.Node? && OnTree(Child(t, p[0]), p[1..]))
  }

  /** The tree with the subtree at `p` replaced by `s`: the link rewrite of
      `replaceNode` (tree.hpp), which points the parent's child slot, or the
      root, at the new subtree. */
  function Graft(t: Tree, p: Path, s: Tree): Tree
    decreases |p|
  {
    if |p| == 0 then s
    else match t
      case Leaf => Leaf
      case Node(l, x, r) =>
        if p[0] == Left then Node(Graft(l, p[1..], s), x, r)
        else Node(l, x, Graft(r, p[1..], s))
  }

  /** The in-order elements left of the subtree at `p`. */
  function Before(t: Tree, p: Path): seq<KeyValuePair>
    decreases |p|
  {
    if |p| == 0 || t.Leaf? then []
    else if p[0] == Left then Before(t.left, p[1..])
    else InOrder(t.left) + [t.kv] + Before(t.right, p[1..])
  }

  /** The in-order elements right of the subtree at `p`. */
  function After(t: Tree, p: Path): seq<KeyValuePair>
    decreases |p|
  {
    if |p| == 0 || t.Leaf? then []
    else if p[0] == Left then After(t.left, p[1..]) + [t.kv] + InOrder(t.right)
    else After(t.right, p[1..])
  }

  lemma {:induction false} ReachesOnTree(t: Tree, p: Path)
    requires Reaches(t, p)
    ensures OnTree(t, p)
    decreases |p|
  {
    if |p| > 0 {
      ReachesOnTree(Child(t, p[0]), p[1..]);
    }
  }

  lemma {:induction false} SubtreeAppend(t: Tree, p: Path, q: Path)
    ensures Subtree(t, p + q) == Subtree(Subtree(t, p), q)
    decreases |p|
  {
    if |p| == 0 {
      assert p + q == q;
    } else if t.Leaf? {
      assert Subtree(Leaf, q) == Leaf;
    } else {
      assert (p + q)[0] == p[0] && (p + q)[1..] == p[1..] + q;
      SubtreeAppend(Child(t, p[0]), p[1..], q);
    }
  }

  /** The elements of a tree are those before a position, those of the
      subtree at the position, and those after it. */
  lemma {:induction false} InOrderAround(t: Tree, p: Path)
    requires OnTree(t, p)
    ensures InOrder(t) == Before(t, p) + InOrder(Subtree(t, p)) + After(t, p)
    decreases |p|
  {
    if |p| > 0 {
      var q := p[1..];
      if p[0] == Left {
        InOrderAround(t.left, q);
        assert InOrder(t) == (Before(t.left, q) + InOrder(Subtree(t, p)) + After(t.left, q)) + [t.kv] + InOrder(t.right);
      } else {
        InOrderAround(t.right, q);
        assert InOrder(t) == InOrder(t.left) + [t.kv] + (Before(t.right, q) + InOrder(Subtree(t, p)) + After(t.right, q));
      }
    }
  }

  /** Replacing the subtree at a position splices the new subtree's elements
      between the unchanged elements before and after that position. */
  lemma {:induction false} GraftInOrder(t: Tree, p: Path, s: Tree)
    requires OnTree(t, p)
    ensures InOrder(Graft(t, p, s)) == Before(t, p) + InOrder(s) + After(t, p)
    decreases |p|
  {
    if |p| > 0 {
      var q := p[1..];
      if p[0] == Left {
        GraftInOrder(t.left, q, s);
        assert InOrder(Graft(t, p, s)) == (Before(t.left, q) + InOrder(s) + After(t.left, q)) + [t.kv] + InOrder(t.right);
      } else {
        GraftInOrder(t.right, q, s);
        assert InOrder(Graft(t, p, s)) == InOrder(t.left) + [t.kv] + (Before(t.right, q) + InOrder(s) + After(t.right, q));
      }
    }
  }

  /** After a graft the path names the grafted subtree. */
  lemma {:induction false} GraftSubtree(t: Tree, p: Path, s: Tree)
    requires OnTree(t, p)
    ensures OnTree(Graft(t, p, s), p)
    ensures Subtree(Graft(t, p, s), p) == s
    decreases |p|
  {
    if |p| > 0 {
      GraftSubtree(Child(t, p[0]), p[1..], s);
    }
  }

  /** Grafting a subtree with the same in-order sequence keeps the whole
      in-order sequence. */
  lemma SameInOrderGraft(t: Tree, p: Path, s: Tree)
    requires OnTree(t, p) && InOrder(s) == InOrder(Subtree(t, p))
    ensures InOrder(Graft(t, p, s)) == InOrder(t)
  {
    InOrderAround(t, p);
    GraftInOrder(t, p, s);
  }
}
