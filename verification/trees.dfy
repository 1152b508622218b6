/** The splay tree's node structure as an immutable binary tree, with the
    views the rest of the model reasons about: the in-order sequence of
    elements, the key set, the key-to-value content, the node count, and the
    binary-search-tree ordering invariant. */
module Trees {
  import opened Keys
  import opened Pairs

  datatype Tree = Leaf | Node(left: Tree, kv: KeyValuePair, right: Tree)

  /** The elements in left-to-right (in-order) order. */
  function InOrder(t: Tree): seq<KeyValuePair>
  {
    match t
    case Leaf => []
    case Node(l, x, r) => InOrder(l) + [x] + InOrder(r)
  }

  /** Number of nodes. */
  function Size(t: Tree): (n: nat)
    ensures n == |InOrder(t)|
  {
    match t
    case Leaf => 0
    case Node(l, _, r) => Size(l) + 1 + Size(r)
  }

  function KeysOf(s: seq<KeyValuePair>): set<Key>
  {
    set e | e in s :: e.key
  }

  function KeySet(t: Tree): set<Key>
  {
    KeysOf(InOrder(t))
  }

  /** The map a sequence of pairs denotes; a later pair overrides an earlier
      one with the same key. */
  function MapOf(s: seq<KeyValuePair>): map<Key, string>
  {
    if |s| == 0 then map[]
    else MapOf(s[..|s| - 1])[s[|s| - 1].key := s[|s| - 1].value]
  }

  /** The key-to-value content a tree stores. */
  function Content(t: Tree): map<Key, string>
  {
    MapOf(InOrder(t))
  }

  /** Keys strictly increase from left to right. */
  ghost predicate Sorted(s: seq<KeyValuePair>)
  {
    forall i, j :: 0 <= i < j < |s| ==> Less(s[i].key, s[j].key)
  }

  /** The search-tree invariant: every key in a node's left subtree is less
      than the node's key, and every key in its right subtree is greater. */
  ghost predicate Bst(t: Tree)
  {
    match t
    case Leaf => true
    case Node(l, x, r) =>
      && Bst(l)
      && Bst(r)
      && (forall k :: k in KeySet(l) ==> Less(k, x.key))
      && (forall k :: k in KeySet(r) ==> Less(x.key, k))
  }

  lemma KeysOfAppend(a: seq<KeyValuePair>, b: seq<KeyValuePair>)
    ensures KeysOf(a + b) == KeysOf(a) + KeysOf(b)
  {
    forall k | k in KeysOf(a + b) ensures k in KeysOf(a) + KeysOf(b) {
      var e :| e in a + b && e.key == k;
      if e in a { assert k in KeysOf(a); } else { assert e in b; assert k in KeysOf(b); }
    }
    forall k | k in KeysOf(a) + KeysOf(b) ensures k in KeysOf(a + b) {
      if k in KeysOf(a) {
        var e :| e in a && e.key == k;
        assert e in a + b;
      } else {
        var e :| e in b && e.key == k;
        assert e in a + b;
      }
    }
  }

  lemma KeySetNode(l: Tree, x: KeyValuePair, r: Tree)
    ensures KeySet(Node(l, x, r)) == KeySet(l) + {x.key} + KeySet(r)
  {
    KeysOfAppend(InOrder(l) + [x], InOrder(r));
    KeysOfAppend(InOrder(l), [x]);
    assert KeysOf([x]) == {x.key};
  }

  /** A sequence is sorted around a middle element exactly when both sides
      are sorted, and the middle key separates them. */
  lemma SortedAround(a: seq<KeyValuePair>, x: KeyValuePair, b: seq<KeyValuePair>)
    ensures Sorted(a + [x] + b) <==>
      && Sorted(a)
      && Sorted(b)
      && (forall k :: k in KeysOf(a) ==> Less(k, x.key))
      && (forall k :: k in KeysOf(b) ==> Less(x.key, k))
  {
    if Sorted(a + [x] + b) {
      SortedSplit(a, x, b);
    }
    if
      && Sorted(a)
      && Sorted(b)
      && (forall k :: k in KeysOf(a) ==> Less(k, x.key))
      && (forall k :: k in KeysOf(b) ==> Less(x.key, k))
    {
      SortedJoin(a, x, b);
    }
  }

  lemma SortedSplit(a: seq<KeyValuePair>, x: KeyValuePair, b: seq<KeyValuePair>)
    requires Sorted(a + [x] + b)
    ensures Sorted(a) && Sorted(b)
    ensures forall k :: k in KeysOf(a) ==> Less(k, x.key)
    ensures forall k :: k in KeysOf(b) ==> Less(x.key, k)
  {
    var s := a + [x] + b;
    assert forall i :: 0 <= i < |a| ==> s[i] == a[i];
    assert forall j :: 0 <= j < |b| ==> s[|a| + 1 + j] == b[j];
    assert s[|a|] == x;
    forall k | k in KeysOf(a) ensures Less(k, x.key) {
      var e :| e in a && e.key == k;
      var i :| 0 <= i < |a| && a[i] == e;
      assert s[i] == e;
    }
    forall k | k in KeysOf(b) ensures Less(x.key, k) {
      var e :| e in b && e.key == k;
      var j :| 0 <= j < |b| && b[j] == e;
      assert s[|a| + 1 + j] == e;
    }
    forall i, j | 0 <= i < j < |b| ensures Less(b[i].key, b[j].key) {
      assert s[|a| + 1 + i] == b[i] && s[|a| + 1 + j] == b[j];
    }
  }

  lemma SortedJoin(a: seq<KeyValuePair>, x: KeyValuePair, b: seq<KeyValuePair>)
    requires Sorted(a) && Sorted(b)
    requires forall k :: k in KeysOf(a) ==> Less(k, x.key)
    requires forall k :: k in KeysOf(b) ==> Less(x.key, k)
    ensures Sorted(a + [x] + b)
  {
    var s := a + [x] + b;
    forall i, j | 0 <= i < j < |s| ensures Less(s[i].key, s[j].key) {
      if i < |a| {
        assert s[i] == a[i] && a[i] in a;
        assert s[i].key in KeysOf(a);
        if j < |a| {
          assert s[j] == a[j];
        } else if j > |a| {
          assert s[j] == b[j - |a| - 1] && b[j - |a| - 1] in b;
          assert s[j].key in KeysOf(b);
          LessTransitive(s[i].key, x.key, s[j].key);
        }
      } else if i == |a| {
        assert s[j] == b[j - |a| - 1] && b[j - |a| - 1] in b;
        assert s[j].key in KeysOf(b);
      } else {
        assert s[i] == b[i - |a| - 1] && s[j] == b[j - |a| - 1];
      }
    }
  }

  lemma {:induction false} BstIffSorted(t: Tree)
    ensures Bst(t) <==> Sorted(InOrder(t))
  {
    match t
    case Leaf =>
    case Node(l, x, r) =>
      BstIffSorted(l);
      BstIffSorted(r);
      SortedAround(InOrder(l), x, InOrder(r));
  }

  lemma {:induction false} MapOfAppend(a: seq<KeyValuePair>, b: seq<KeyValuePair>)
    ensures MapOf(a + b) == MapOf(a) + MapOf(b)
    decreases |b|
  {
    if |b| == 0 {
      assert a + b == a;
    } else {
      var b' := b[..|b| - 1];
      var y := b[|b| - 1];
      assert (a + b)[..|a + b| - 1] == a + b';
      assert (a + b)[|a + b| - 1] == y;
      MapOfAppend(a, b');
      assert MapOf(a + b) == (MapOf(a) + MapOf(b'))[y.key := y.value];
      assert MapOf(b) == MapOf(b')[y.key := y.value];
      UpdateAbove(MapOf(a), MapOf(b'), y.key, y.value);
    }
  }

  lemma {:induction false} MapOfKeys(s: seq<KeyValuePair>)
    ensures MapOf(s).Keys == KeysOf(s)
    decreases |s|
  {
    if |s| > 0 {
      var s' := s[..|s| - 1];
      MapOfKeys(s');
      assert s == s' + [s[|s| - 1]];
      KeysOfAppend(s', [s[|s| - 1]]);
      assert KeysOf([s[|s| - 1]]) == {s[|s| - 1].key};
    }
  }

  /** In a sorted sequence each pair is the one its key maps to. */
  lemma MapOfSortedAt(s: seq<KeyValuePair>, i: int)
    requires Sorted(s) && 0 <= i < |s|
    ensures s[i].key in MapOf(s) && MapOf(s)[s[i].key] == s[i].value
  {
    var pre, post := s[..i], s[i + 1..];
    assert s == pre + [s[i]] + post;
    MapOfAround(pre, s[i], post);
    MapOfKeys(post);
    SortedSplit(pre, s[i], post);
    LessIrreflexive(s[i].key);
  }

  /** Dropping an element of a sorted sequence keeps it sorted. */
  lemma SortedWithout(a: seq<KeyValuePair>, x: KeyValuePair, b: seq<KeyValuePair>)
    requires Sorted(a + [x] + b)
    ensures Sorted(a + b)
  {
    var s := a + [x] + b;
    forall i, j | 0 <= i < j < |a + b| ensures Less((a + b)[i].key, (a + b)[j].key) {
      var i', j' := if i < |a| then i else i + 1, if j < |a| then j else j + 1;
      assert (a + b)[i] == s[i'] && (a + b)[j] == s[j'];
    }
  }

  /** Dropping the middle element of a sorted sequence keeps it sorted and
      removes exactly that element's key from the map it denotes. */
  lemma RemoveMiddle(a: seq<KeyValuePair>, x: KeyValuePair, b: seq<KeyValuePair>)
    requires Sorted(a + [x] + b)
    ensures Sorted(a + b)
    ensures MapOf(a + b) == MapOf(a + [x] + b) - {x.key}
  {
    SortedWithout(a, x, b);
    SortedSplit(a, x, b);
    MapOfAppend(a, b);
    MapOfAround(a, x, b);
    MapOfKeys(a);
    MapOfKeys(b);
    LessIrreflexive(x.key);
    assert x.key !in MapOf(a) && x.key !in MapOf(b);
    DropMiddle(MapOf(a), MapOf(b), x.key, x.value);
  }

  /** The map of a sequence split around one pair. */
  lemma MapOfAround(a: seq<KeyValuePair>, x: KeyValuePair, b: seq<KeyValuePair>)
    ensures MapOf(a + [x] + b) == MapOf(a)[x.key := x.value] + MapOf(b)
  {
    MapOfAppend(a + [x], b);
    MapOfAppend(a, [x]);
    assert MapOf([x]) == map[x.key := x.value] by {
      assert [x][..0] == [];
    }
  }

  /** Proof step, no counterpart in the C++ code: removing a key that only
      the middle update added. */
  lemma DropMiddle(a: map<Key, string>, b: map<Key, string>, k: Key, v: string)
    requires k !in a && k !in b
    ensures a[k := v] + b - {k} == a + b
  {
  }

  /** Proof step, no counterpart in the C++ code: updating a key the right
      operand does not have is updating the left. */
  lemma UpdateBelow(a: map<Key, string>, b: map<Key, string>, k: Key, v: string)
    requires k !in b
    ensures (a + b)[k := v] == a[k := v] + b
  {
  }

  /** Proof step, no counterpart in the C++ code: updating a union is
      updating its right operand. */
  lemma UpdateAbove(a: map<Key, string>, b: map<Key, string>, k: Key, v: string)
    ensures (a + b)[k := v] == a + b[k := v]
  {
  }

  /** Proof step, no counterpart in the C++ code: updates of two different
      keys commute. */
  lemma UpdateCommute(a: map<Key, string>, k: Key, v: string, k': Key, v': string)
    requires k != k'
    ensures a[k := v][k' := v'] == a[k' := v'][k := v]
  {
  }

  /** The content of a node: its left subtree's, then its own pair, then its
      right subtree's, each overriding the previous. */
  lemma ContentNode(l: Tree, x: KeyValuePair, r: Tree)
    ensures Content(Node(l, x, r)) == Content(l)[x.key := x.value] + Content(r)
  {
    MapOfAround(InOrder(l), x, InOrder(r));
  }

  lemma ContentKeys(t: Tree)
    ensures Content(t).Keys == KeySet(t)
  {
    MapOfKeys(InOrder(t));
  }

  /** In a search tree each key occurs in exactly one node, so the node
      count is the number of keys. */
  lemma {:induction false} BstSizeIsKeyCount(t: Tree)
    requires Bst(t)
    ensures Size(t) == |KeySet(t)| == |Content(t)|
  {
    ContentKeys(t);
    match t
    case Leaf =>
      assert KeySet(t) == {};
    case Node(l, x, r) =>
      BstSizeIsKeyCount(l);
      BstSizeIsKeyCount(r);
      KeySetNode(l, x, r);
      LessIrreflexive(x.key);
      assert x.key !in KeySet(l) && x.key !in KeySet(r);
      forall k | k in KeySet(l) ensures k !in KeySet(r) {
        if k in KeySet(r) {
          LessTransitive(x.key, k, x.key);
        }
      }
      assert KeySet(l) !! KeySet(r);
      assert |KeySet(l) + {x.key}| == |KeySet(l)| + 1;
  }

  /** Overwriting a root's element with one of the same key. */
  lemma OverwriteRoot(l: Tree, x: KeyValuePair, rt: Tree, e: KeyValuePair)
    requires Bst(Node(l, x, rt)) && e.key == x.key
    ensures Bst(Node(l, e, rt))
    ensures KeySet(Node(l, e, rt)) == KeySet(Node(l, x, rt)) + {e.key}
    ensures Content(Node(l, e, rt)) == Content(Node(l, x, rt))[e.key := e.value]
  {
    KeySetNode(l, x, rt);
    KeySetNode(l, e, rt);
    OverwriteRootContent(l, x, rt, e);
  }

  lemma OverwriteRootContent(l: Tree, x: KeyValuePair, rt: Tree, e: KeyValuePair)
    requires Bst(Node(l, x, rt)) && e.key == x.key
    ensures Content(Node(l, e, rt)) == Content(Node(l, x, rt))[e.key := e.value]
  {
    assert e.key !in Content(rt) by {
      LessIrreflexive(e.key);
      ContentKeys(rt);
    }
    ContentNode(l, x, rt);
    ContentNode(l, e, rt);
    UpdateBelow(Content(l)[x.key := x.value], Content(rt), e.key, e.value);
    assert Content(l)[x.key := x.value][e.key := e.value] == Content(l)[e.key := e.value];
  }

  /** Rebuilding a node around a left subtree that gained key `k`. */
  lemma GrowLeft(l: Tree, l': Tree, x: KeyValuePair, rt: Tree, k: Key, v: string)
    requires Bst(Node(l, x, rt)) && Less(k, x.key)
    requires Bst(l') && KeySet(l') == KeySet(l) + {k} && Content(l') == Content(l)[k := v]
    ensures Bst(Node(l', x, rt))
    ensures KeySet(Node(l', x, rt)) == KeySet(Node(l, x, rt)) + {k}
    ensures Content(Node(l', x, rt)) == Content(Node(l, x, rt))[k := v]
  {
    KeySetNode(l, x, rt);
    KeySetNode(l', x, rt);
    GrowLeftBst(l, l', x, rt, k);
    GrowLeftContent(l, l', x, rt, k, v);
  }

  lemma GrowLeftBst(l: Tree, l': Tree, x: KeyValuePair, rt: Tree, k: Key)
    requires Bst(Node(l, x, rt)) && Less(k, x.key)
    requires Bst(l') && KeySet(l') == KeySet(l) + {k}
    ensures Bst(Node(l', x, rt))
  {
  }

  lemma GrowLeftContent(l: Tree, l': Tree, x: KeyValuePair, rt: Tree, k: Key, v: string)
    requires Bst(Node(l, x, rt)) && Less(k, x.key)
    requires Content(l') == Content(l)[k := v]
    ensures Content(Node(l', x, rt)) == Content(Node(l, x, rt))[k := v]
  {
    ContentNode(l, x, rt);
    ContentNode(l', x, rt);
    ContentKeys(rt);
    assert k !in KeySet(rt) by {
      if k in KeySet(rt) { LessTransitive(k, x.key, k); LessIrreflexive(k); }
    }
    LessIrreflexive(k);
    UpdateCommute(Content(l), k, v, x.key, x.value);
    UpdateBelow(Content(l)[x.key := x.value], Content(rt), k, v);
  }

  /** Rebuilding a node around a right subtree that gained key `k`. */
  lemma GrowRight(l: Tree, x: KeyValuePair, rt: Tree, rt': Tree, k: Key, v: string)
    requires Bst(Node(l, x, rt)) && Less(x.key, k)
    requires Bst(rt') && KeySet(rt') == KeySet(rt) + {k} && Content(rt') == Content(rt)[k := v]
    ensures Bst(Node(l, x, rt'))
    ensures KeySet(Node(l, x, rt')) == KeySet(Node(l, x, rt)) + {k}
    ensures Content(Node(l, x, rt')) == Content(Node(l, x, rt))[k := v]
  {
    KeySetNode(l, x, rt);
    KeySetNode(l, x, rt');
    GrowRightBst(l, x, rt, rt', k);
    GrowRightContent(l, x, rt, rt', k, v);
  }

  lemma GrowRightBst(l: Tree, x: KeyValuePair, rt: Tree, rt': Tree, k: Key)
    requires Bst(Node(l, x, rt)) && Less(x.key, k)
    requires Bst(rt') && KeySet(rt') == KeySet(rt) + {k}
    ensures Bst(Node(l, x, rt'))
  {
  }

  lemma GrowRightContent(l: Tree, x: KeyValuePair, rt: Tree, rt': Tree, k: Key, v: string)
    requires Content(rt') == Content(rt)[k := v]
    ensures Content(Node(l, x, rt')) == Content(Node(l, x, rt))[k := v]
  {
    ContentNode(l, x, rt);
    ContentNode(l, x, rt');
    UpdateAbove(Content(l)[x.key := x.value], Content(rt), k, v);
  }
}
