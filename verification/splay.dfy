/** `splay` (tree.hpp): moves a node to the root by rotations. Each round of
    the loop looks at the node `x`, its parent `p` and grandparent `g`: with
    no grandparent it rotates `p` once (zig); when `x` and `p` are children
    on the same side it rotates `g` and then `p` (zig-zig); otherwise it
    rotates `p` and then `g` (zig-zag). Rounds start at `x` and move up, so a
    lone zig can only happen at the real root. */
module Splaying {
  import opened Trees
  import opened Paths
  import opened Rotations
  import opened Pairs

  /** One round of the loop, applied to the subtree rooted at the topmost
      node it touches (`p` for a zig, `g` otherwise); `d` is the path from
      there down to `x`. */
  function SplayStep(g: Tree, d: Path): (r: Tree)
    requires 1 <= |d| <= 2 && Reaches(g, d)
    ensures InOrder(r) == InOrder(g)
    ensures r.Node? && r.kv == Subtree(g, d).kv
  {
    var p := Child(g, d[0]);
    assert Subtree(g, d) == Subtree(p, d[1..]);
    if |d| == 1 then
      // zig
      if d[0] == Left then RotateRight(g) else RotateLeft(g)
    else
      assert Subtree(p, d[1..]) == Child(p, d[1]) by {
        assert d[1..][1..] == [];
      }
      if d[0] == d[1] then
        // zig-zig: rotate g, then p
        if d[0] == Left then RotateRight(RotateRight(g)) else RotateLeft(RotateLeft(g))
      else
        // zig-zag: rotate p, then g
        if d[1] == Left then RotateLeft(Node(g.left, g.kv, RotateRight(p)))
        else RotateRight(Node(RotateLeft(p), g.kv, g.right))
  }

  /** One round in the whole tree: the rotations happen below the node at
      `Round(p)`, which then holds `x`. */
  function Round(p: Path): (up: Path)
    requires |p| > 0
    ensures |up| < |p| && p == up + p[|up|..] && 1 <= |p| - |up| <= 2
  {
    // the round has a grandparent exactly when x is at depth 2 or more
    if |p| == 1 then [] else p[..|p| - 2]
  }

  function SplayRound(t: Tree, p: Path): (r: Tree)
    requires |p| > 0 && Reaches(t, p)
    ensures InOrder(r) == InOrder(t)
    ensures Reaches(r, Round(p)) && Subtree(r, Round(p)).kv == Subtree(t, p).kv
  {
    var up := Round(p);
    var d := p[|up|..];
    SubtreeAppend(t, up, d);
    ReachesOnTree(t, up);
    var g' := SplayStep(Subtree(t, up), d);
    GraftSubtree(t, up, g');
    SameInOrderGraft(t, up, g');
    Graft(t, up, g')
  }

  /** Splays the node at path `p` to the root. The result keeps the in-order
      sequence (so the element multiset, the content and the search-tree
      order) and has that node's element at its root. */
  function Splay(t: Tree, p: Path): (r: Tree)
    requires Reaches(t, p)
    ensures InOrder(r) == InOrder(t)
    ensures r.Node? && r.kv == Subtree(t, p).kv
    decreases |p|
  {
    if |p| == 0 then t
    else Splay(SplayRound(t, p), Round(p))
  }

  /** Splaying keeps the search-tree invariant and the content. */
  lemma SplayKeepsBst(t: Tree, p: Path)
    requires Reaches(t, p)
    ensures Bst(Splay(t, p)) <==> Bst(t)
    ensures Content(Splay(t, p)) == Content(t)
    ensures Size(Splay(t, p)) == Size(t)
  {
    BstIffSorted(t);
    BstIffSorted(Splay(t, p));
  }

  /** A left chain `d`-`c`-`b`-`a` splayed at `a` (depth three): the loop
      first does a zig-zig below the root, on `c`, `b` and `a`, and then a
      single zig at the root, leaving `b` and `c` as a right-leaning pair
      under `d`. Pairing from the top instead (a zig at `b` first, then a
      zig-zig at the root) would have left `a` above `c`, with `b` and `d` as
      `c`'s two children. */
  lemma OddDepthPairsFromBelow(a: KeyValuePair, b: KeyValuePair, c: KeyValuePair, d: KeyValuePair)
    ensures Splay(Node(Node(Node(Node(Leaf, a, Leaf), b, Leaf), c, Leaf), d, Leaf), [Left, Left, Left])
      == Node(Leaf, a, Node(Node(Leaf, b, Node(Leaf, c, Leaf)), d, Leaf))
  {
    var t := Node(Node(Node(Node(Leaf, a, Leaf), b, Leaf), c, Leaf), d, Leaf);
    var t1 := Node(Node(Leaf, a, Node(Leaf, b, Node(Leaf, c, Leaf))), d, Leaf);
    assert Round([Left, Left, Left]) == [Left];
    assert SplayRound(t, [Left, Left, Left]) == t1;
    assert Round([Left]) == [];
  }
}
