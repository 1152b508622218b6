/** The public operations of `SplayTree<T>` (tree.hpp) at its one
    instantiation, `T = KeyValuePair`. A tree value stands for the object's
    `root`; each operation that restructures the tree returns the new root.
    The object's invariant `Bst` is a precondition and a postcondition of the
    public operations `FindNode`, `Contains`, `Insert` and `Erase`. The public
    `RootData` only reads the root, so it needs no `Bst`. The internal steps
    (`Place`, `Splice`, `SubtreeMin`, and the rotations and `Splay` of the
    other modules) do not require it; the invariant passes through them by
    `PlaceCorrect`, `Unlink`, `SplayKeepsBst` and the rotations'
    `Bst(t) ==> Bst(r)`. */
module SplayTree {
  import opened Keys
  import opened Pairs
  import opened Trees
  import opened Paths
  import opened Splaying

  datatype Option<T> = None | Some(value: T)

  /** Where a search for a key stops: the path to the node it stopped at,
      and whether it stopped because that node's key is equal. */
  datatype Probe = Probe(path: Path, hit: bool)

  /** What `findNode` leaves behind: the restructured tree, and the found
      element (the C++ code returns a pointer to the node, null on a miss). */
  datatype Lookup = Lookup(tree: Tree, found: Option<KeyValuePair>)

  /** The descent loop of `findNode`: go left on `k < key`, right on
      `k > key`, stop on equality or when the next child is missing; the
      node stopped at is the last one visited. */
  function Search(t: Tree, v: KeyValuePair): (r: Probe)
    requires Bst(t)
    ensures t.Node? ==> Reaches(t, r.path)
    ensures r.hit ==> t.Node? && Subtree(t, r.path).kv.key == v.key
    ensures r.hit <==> v.key in KeySet(t)
    ensures t.Node? && !r.hit ==>
      var n := Subtree(t, r.path);
      if v.Lt(n.kv) then n.left.Leaf? else n.right.Leaf?
  {
    match t
    case Leaf => Probe([], false)
    case Node(l, x, rt) =>
      var k := v.key;
      KeySetNode(l, x, rt);
      LessTrichotomy(k, x.key);
      if v.Lt(x) then
        assert k !in KeySet(rt) by {
          if k in KeySet(rt) { LessTrichotomy(k, x.key); }
        }
        if l.Leaf? then Probe([], false)
        else
          var q := Search(l, v);
          Probe([Left] + q.path, q.hit)
      else if v.Gt(x) then
        assert k !in KeySet(l) by {
          if k in KeySet(l) { LessTrichotomy(k, x.key); }
        }
        if rt.Leaf? then Probe([], false)
        else
          var q := Search(rt, v);
          Probe([Right] + q.path, q.hit)
      else
        Probe([], true)
  }

  /** The element stored at a node of a search tree is the one the content
      maps its key to. */
  lemma NodeInContent(t: Tree, p: Path)
    requires Bst(t) && Reaches(t, p)
    ensures Subtree(t, p).kv.key in Content(t)
    ensures Content(t)[Subtree(t, p).kv.key] == Subtree(t, p).kv.value
  {
    var n := Subtree(t, p);
    ReachesOnTree(t, p);
    InOrderAround(t, p);
    var i := |Before(t, p)| + |InOrder(n.left)|;
    assert InOrder(t)[i] == n.kv;
    BstIffSorted(t);
    MapOfSortedAt(InOrder(t), i);
  }

  /** `findNode`: on a hit the found node is splayed to the root and
      returned; on a miss in a non-empty tree the last node visited is
      splayed to the root and nothing is returned; an empty tree is left
      alone. Only the shape changes. */
  function FindNode(t: Tree, v: KeyValuePair): (r: Lookup)
    requires Bst(t)
    ensures InOrder(r.tree) == InOrder(t)
    ensures Bst(r.tree) && Content(r.tree) == Content(t)
    ensures r.found.Some? <==> v.key in Content(t)
    ensures r.found.Some? ==>
      && r.found.value.key == v.key
      && r.found.value.value == Content(t)[v.key]
      && r.tree.Node? && r.tree.kv == r.found.value
    ensures t.Node? <==> r.tree.Node?
  {
    ContentKeys(t);
    if t.Leaf? then Lookup(Leaf, None)
    else
      var q := Search(t, v);
      var t' := Splay(t, q.path);
      SplayKeepsBst(t, q.path);
      if q.hit then
        NodeInContent(t, q.path);
        Lookup(t', Some(Subtree(t, q.path).kv))
      else Lookup(t', None)
  }

  /** Everything the search passes on its way lies on the correct side of
      the searched key: the elements before the stopping node are below it,
      the elements after it above it. */
  lemma {:induction false} SearchBrackets(t: Tree, v: KeyValuePair)
    requires Bst(t)
    ensures forall k :: k in KeysOf(Before(t, Search(t, v).path)) ==> Less(k, v.key)
    ensures forall k :: k in KeysOf(After(t, Search(t, v).path)) ==> Less(v.key, k)
  {
    match t
    case Leaf =>
    case Node(l, x, rt) =>
      var q := Search(t, v);
      LessTrichotomy(v.key, x.key);
      if v.Lt(x) && l.Node? {
        var q' := Search(l, v);
        assert q.path[0] == Left && q.path[1..] == q'.path;
        SearchBrackets(l, v);
        KeysOfAppend(After(l, q'.path) + [x], InOrder(rt));
        KeysOfAppend(After(l, q'.path), [x]);
        assert KeysOf([x]) == {x.key};
        forall k | k in KeySet(rt) ensures Less(v.key, k) {
          LessTransitive(v.key, x.key, k);
        }
      } else if !v.Lt(x) && v.Gt(x) && rt.Node? {
        var q' := Search(rt, v);
        assert q.path[0] == Right && q.path[1..] == q'.path;
        SearchBrackets(rt, v);
        KeysOfAppend(InOrder(l) + [x], Before(rt, q'.path));
        KeysOfAppend(InOrder(l), [x]);
        assert KeysOf([x]) == {x.key};
        forall k | k in KeySet(l) ensures Less(k, v.key) {
          LessTransitive(k, x.key, v.key);
        }
      } else {
        assert q.path == [];
      }
  }

  /** In a sorted sequence whose part `b` lies below `k0 < x.key`, `x` is the
      least element above `k0`. */
  lemma LeastAbove(b: seq<KeyValuePair>, x: KeyValuePair, a: seq<KeyValuePair>, k0: Key)
    requires Sorted(b + [x] + a) && Less(k0, x.key)
    requires forall k :: k in KeysOf(b) ==> Less(k, k0)
    ensures forall k :: k in KeysOf(b + [x] + a) && Less(k0, k) ==> k == x.key || Less(x.key, k)
  {
    SortedSplit(b, x, a);
    KeysOfAppend(b + [x], a);
    KeysOfAppend(b, [x]);
    assert KeysOf([x]) == {x.key};
    forall k | k in KeysOf(b) ensures !Less(k0, k) {
      LessTrichotomy(k, k0);
    }
  }

  /** In a sorted sequence whose part `a` lies above `k0 > x.key`, `x` is the
      greatest element below `k0`. */
  lemma GreatestBelow(b: seq<KeyValuePair>, x: KeyValuePair, a: seq<KeyValuePair>, k0: Key)
    requires Sorted(b + [x] + a) && Less(x.key, k0)
    requires forall k :: k in KeysOf(a) ==> Less(k0, k)
    ensures forall k :: k in KeysOf(b + [x] + a) && Less(k, k0) ==> k == x.key || Less(k, x.key)
  {
    SortedSplit(b, x, a);
    KeysOfAppend(b + [x], a);
    KeysOfAppend(b, [x]);
    assert KeysOf([x]) == {x.key};
    forall k | k in KeysOf(a) ensures !Less(k, k0) {
      LessTrichotomy(k, k0);
    }
  }

  /** On a miss in a non-empty tree `findNode` splays the last node visited,
      which holds the missing key's in-order neighbour: the least stored key
      above it or the greatest stored key below it. */
  lemma MissSplaysNeighbour(t: Tree, v: KeyValuePair)
    requires Bst(t) && t.Node? && v.key !in Content(t)
    ensures var x := FindNode(t, v).tree.kv;
      && x.key in Content(t)
      && ((Less(v.key, x.key) && forall k :: k in Content(t) && Less(v.key, k) ==> k == x.key || Less(x.key, k))
       || (Less(x.key, v.key) && forall k :: k in Content(t) && Less(k, v.key) ==> k == x.key || Less(k, x.key)))
  {
    var q := Search(t, v);
    assert FindNode(t, v).tree.kv == Subtree(t, q.path).kv;
    NodeInContent(t, q.path);
    ContentKeys(t);
    var n := Subtree(t, q.path);
    LessTrichotomy(v.key, n.kv.key);
    if v.Lt(n.kv) {
      MissBelowStop(t, v);
    } else {
      MissAboveStop(t, v);
    }
  }

  /** At a node with an empty left slot the in-order sequence continues
      with the node itself. */
  lemma SplitAtNoLeft(t: Tree, p: Path)
    requires Reaches(t, p) && Subtree(t, p).left.Leaf?
    ensures InOrder(t) == Before(t, p) + [Subtree(t, p).kv] + (InOrder(Subtree(t, p).right) + After(t, p))
  {
    var n := Subtree(t, p);
    ReachesOnTree(t, p);
    InOrderAround(t, p);
    assert InOrder(n) == [n.kv] + InOrder(n.right);
    var b, a := Before(t, p), After(t, p);
    assert b + ([n.kv] + InOrder(n.right)) + a == b + [n.kv] + (InOrder(n.right) + a);
  }

  /** At a node with an empty right slot the in-order sequence continues
      after the node itself. */
  lemma SplitAtNoRight(t: Tree, p: Path)
    requires Reaches(t, p) && Subtree(t, p).right.Leaf?
    ensures InOrder(t) == (Before(t, p) + InOrder(Subtree(t, p).left)) + [Subtree(t, p).kv] + After(t, p)
  {
    var n := Subtree(t, p);
    ReachesOnTree(t, p);
    InOrderAround(t, p);
    assert InOrder(n) == InOrder(n.left) + [n.kv];
  }

  /** A miss that stopped at a node with a larger key stopped at the
      successor. */
  lemma MissBelowStop(t: Tree, v: KeyValuePair)
    requires Bst(t) && t.Node? && v.key !in KeySet(t)
    requires v.Lt(Subtree(t, Search(t, v).path).kv)
    ensures var x := Subtree(t, Search(t, v).path).kv;
      forall k :: k in KeySet(t) && Less(v.key, k) ==> k == x.key || Less(x.key, k)
  {
    var q := Search(t, v);
    var n := Subtree(t, q.path);
    var b, a := Before(t, q.path), After(t, q.path);
    SplitAtNoLeft(t, q.path);
    SearchBrackets(t, v);
    BstIffSorted(t);
    LeastAbove(b, n.kv, InOrder(n.right) + a, v.key);
  }

  /** A miss that stopped at a node with a smaller key stopped at the
      predecessor. */
  lemma MissAboveStop(t: Tree, v: KeyValuePair)
    requires Bst(t) && t.Node? && v.key !in KeySet(t)
    requires Less(Subtree(t, Search(t, v).path).kv.key, v.key)
    ensures var x := Subtree(t, Search(t, v).path).kv;
      forall k :: k in KeySet(t) && Less(k, v.key) ==> k == x.key || Less(k, x.key)
  {
    var q := Search(t, v);
    var n := Subtree(t, q.path);
    var b, a := Before(t, q.path), After(t, q.path);
    LessTrichotomy(v.key, n.kv.key);
    SplitAtNoRight(t, q.path);
    SearchBrackets(t, v);
    BstIffSorted(t);
    GreatestBelow(b + InOrder(n.left), n.kv, a, v.key);
  }

  /** `contains`: whether `findNode` finds the key, with its restructuring. */
  function Contains(t: Tree, v: KeyValuePair): (r: (Tree, bool))
    requires Bst(t)
    ensures r.1 <==> v.key in Content(t)
    ensures Bst(r.0) && Content(r.0) == Content(t)
    ensures InOrder(r.0) == InOrder(t)
    ensures r.1 ==> r.0.Node? && r.0.kv == KeyValuePair(v.key, Content(t)[v.key])
  {
    var lk := FindNode(t, v);
    (lk.tree, lk.found.Some?)
  }

  /** `rootData`: the root's element, if any. */
  function RootData(t: Tree): (r: Option<KeyValuePair>)
    ensures r.None? <==> t == Leaf
    ensures r.Some? ==> r.value == InOrder(t)[Size(t.left)]
  {
    if t.Leaf? then None else Some(t.kv)
  }

  /** The descent loop of `insert`: overwrite the node with an equal key in
      place, or hang a new leaf on the empty child slot where the search
      ended. Returns the tree and the path of the written node. */
  function Place(t: Tree, e: KeyValuePair): (r: (Tree, Path))
    ensures Reaches(r.0, r.1) && Subtree(r.0, r.1).kv == e
  {
    match t
    case Leaf => (Node(Leaf, e, Leaf), [])
    case Node(l, x, rt) =>
      if e.Lt(x) then
        var q := Place(l, e);
        assert ([Left] + q.1)[1..] == q.1;
        (Node(q.0, x, rt), [Left] + q.1)
      else if e.Gt(x) then
        var q := Place(rt, e);
        assert ([Right] + q.1)[1..] == q.1;
        (Node(l, x, q.0), [Right] + q.1)
      else
        // equal key: the node's data is replaced, the shape is kept
        (Node(l, e, rt), [])
  }

  /** Placing keeps the search-tree order, adds `e.key` to the keys, maps it
      to `e.value` and leaves every other key's value alone; a node is added
      only for a new key. */
  lemma {:induction false} PlaceCorrect(t: Tree, e: KeyValuePair)
    requires Bst(t)
    ensures Bst(Place(t, e).0)
    ensures KeySet(Place(t, e).0) == KeySet(t) + {e.key}
    ensures Content(Place(t, e).0) == Content(t)[e.key := e.value]
    ensures Size(Place(t, e).0) == if e.key in KeySet(t) then Size(t) else Size(t) + 1
    decreases t, 1
  {
    match t
    case Leaf =>
      ContentNode(Leaf, e, Leaf);
      KeySetNode(Leaf, e, Leaf);
    case Node(l, x, rt) =>
      KeySetNode(l, x, rt);
      LessTrichotomy(e.key, x.key);
      ContentNode(l, x, rt);
      if Less(e.key, x.key) {
        PlaceLeft(l, x, rt, e);
      } else if Less(x.key, e.key) {
        PlaceRight(l, x, rt, e);
      } else {
        PlaceEqual(l, x, rt, e);
      }
  }

  lemma PlaceEqual(l: Tree, x: KeyValuePair, rt: Tree, e: KeyValuePair)
    requires Bst(Node(l, x, rt)) && e.key == x.key
    ensures Bst(Place(Node(l, x, rt), e).0)
    ensures KeySet(Place(Node(l, x, rt), e).0) == KeySet(Node(l, x, rt)) + {e.key}
    ensures Content(Place(Node(l, x, rt), e).0) == Content(Node(l, x, rt))[e.key := e.value]
    ensures Size(Place(Node(l, x, rt), e).0) == Size(Node(l, x, rt))
  {
    LessIrreflexive(e.key);
    assert Place(Node(l, x, rt), e).0 == Node(l, e, rt);
    OverwriteRoot(l, x, rt, e);
  }

  lemma {:induction false} PlaceLeft(l: Tree, x: KeyValuePair, rt: Tree, e: KeyValuePair)
    requires Bst(Node(l, x, rt)) && Less(e.key, x.key)
    ensures Bst(Place(Node(l, x, rt), e).0)
    ensures KeySet(Place(Node(l, x, rt), e).0) == KeySet(Node(l, x, rt)) + {e.key}
    ensures Content(Place(Node(l, x, rt), e).0) == Content(Node(l, x, rt))[e.key := e.value]
    ensures Size(Place(Node(l, x, rt), e).0) ==
      if e.key in KeySet(Node(l, x, rt)) then Size(Node(l, x, rt)) else Size(Node(l, x, rt)) + 1
    decreases Node(l, x, rt), 0
  {
    var l' := Place(l, e).0;
    assert Place(Node(l, x, rt), e).0 == Node(l', x, rt);
    PlaceCorrect(l, e);
    GrowLeft(l, l', x, rt, e.key, e.value);
    KeySetNode(l, x, rt);
    assert e.key !in KeySet(rt) && e.key != x.key by {
      LessIrreflexive(e.key);
      if e.key in KeySet(rt) { LessTransitive(e.key, x.key, e.key); }
    }
  }

  lemma {:induction false} PlaceRight(l: Tree, x: KeyValuePair, rt: Tree, e: KeyValuePair)
    requires Bst(Node(l, x, rt)) && Less(x.key, e.key)
    ensures Bst(Place(Node(l, x, rt), e).0)
    ensures KeySet(Place(Node(l, x, rt), e).0) == KeySet(Node(l, x, rt)) + {e.key}
    ensures Content(Place(Node(l, x, rt), e).0) == Content(Node(l, x, rt))[e.key := e.value]
    ensures Size(Place(Node(l, x, rt), e).0) ==
      if e.key in KeySet(Node(l, x, rt)) then Size(Node(l, x, rt)) else Size(Node(l, x, rt)) + 1
    decreases Node(l, x, rt), 0
  {
    var rt' := Place(rt, e).0;
    LessTrichotomy(e.key, x.key);
    assert Place(Node(l, x, rt), e).0 == Node(l, x, rt');
    PlaceCorrect(rt, e);
    GrowRight(l, x, rt, rt', e.key, e.value);
    KeySetNode(l, x, rt);
    assert e.key !in KeySet(l) && e.key != x.key by {
      LessIrreflexive(e.key);
      if e.key in KeySet(l) { LessTransitive(e.key, x.key, e.key); }
    }
  }

  /** `insert`: place the element, then splay its node to the root. */
  function Insert(t: Tree, e: KeyValuePair): (r: Tree)
    requires Bst(t)
    ensures r.Node? && r.kv == e
    ensures Bst(r)
    ensures Content(r) == Content(t)[e.key := e.value]
    ensures Size(r) == if e.key in Content(t) then Size(t) else Size(t) + 1
  {
    var q := Place(t, e);
    PlaceCorrect(t, e);
    SplayKeepsBst(q.0, q.1);
    ContentKeys(t);
    Splay(q.0, q.1)
  }

  /** `subtreeMin`: the path to the leftmost node, which holds the least
      element; none for an empty subtree. */
  function SubtreeMin(t: Tree): (r: Option<Path>)
    ensures r.None? <==> t.Leaf?
    ensures r.Some? ==>
      && Reaches(t, r.value)
      && Subtree(t, r.value).left.Leaf?
      && Before(t, r.value) == []
      && Subtree(t, r.value).kv == InOrder(t)[0]
  {
    match t
    case Leaf => None
    case Node(l, _, _) =>
      if l.Leaf? then Some([])
      else
        var q := SubtreeMin(l).value;
        Some([Left] + q)
  }

  /** In a search tree the leftmost key is below every other key. */
  lemma SubtreeMinIsLeast(t: Tree)
    requires Bst(t) && t.Node?
    ensures forall k :: k in KeySet(t) ==> k == InOrder(t)[0].key || Less(InOrder(t)[0].key, k)
  {
    BstIffSorted(t);
    var s := InOrder(t);
    forall k | k in KeySet(t) ensures k == s[0].key || Less(s[0].key, k) {
      var e :| e in s && e.key == k;
      var i :| 0 <= i < |s| && s[i] == e;
    }
  }

  /** The splice in `erase` for a root with two children: the leftmost node
      `m` of the right subtree takes the root's place. If `m` is the right
      child itself it keeps its right subtree; otherwise its own right
      subtree first takes `m`'s place, and `m` inherits the root's right
      subtree. Either way `m` inherits the root's left subtree. */
  function Splice(node: Tree): (r: Tree)
    requires node.Node? && node.left.Node? && node.right.Node?
    ensures InOrder(r) == InOrder(node.left) + InOrder(node.right)
  {
    var rt := node.right;
    var mp := SubtreeMin(rt).value;
    var m := Subtree(rt, mp);
    ReachesOnTree(rt, mp);
    InOrderAround(rt, mp);
    if |mp| == 0 then
      Node(node.left, m.kv, m.right)
    else
      GraftInOrder(rt, mp, m.right);
      Node(node.left, m.kv, Graft(rt, mp, m.right))
  }

  /** The unlinking in `erase` of a found node that has been splayed to the
      root: replaced by its right child when it has no left one, by its left
      child when it has no right one, and by its in-order successor
      otherwise. Exactly the root's key leaves the tree. */
  function Unlink(node: Tree): (r: Tree)
    requires node.Node? && Bst(node)
    ensures InOrder(r) == InOrder(node.left) + InOrder(node.right)
    ensures Bst(r)
    ensures Content(r) == Content(node) - {node.kv.key}
  {
    var r :=
      if node.left.Leaf? then node.right
      else if node.right.Leaf? then node.left
      else Splice(node);
    BstIffSorted(node);
    BstIffSorted(r);
    RemoveMiddle(InOrder(node.left), node.kv, InOrder(node.right));
    r
  }

  /** `erase`: find the key (splaying as `findNode` does); if present, the
      found node is the root and is unlinked. */
  function Erase(t: Tree, v: KeyValuePair): (r: Tree)
    requires Bst(t)
    ensures Bst(r)
    ensures Content(r) == Content(t) - {v.key}
    ensures v.key !in Content(t) ==> InOrder(r) == InOrder(t)
    ensures Size(r) == if v.key in Content(t) then Size(t) - 1 else Size(t)
  {
    var lk := FindNode(t, v);
    if lk.found.None? then lk.tree
    else Unlink(lk.tree)
  }
}
